/** hd_read_ata and hd_write_ata (src/block/hd.c:160-359): byte ranges over the sector cache. */
module HdDevice {
  import Division
  import opened Errno
  import opened Numbers
  import opened Options
  import opened SectorCache
  import opened Sequences

  const SSIZE_MAX: nat := 0x7FFF_FFFF

  datatype Drive = Drive(dev: nat, size: nat, count: nat) {
    function Key(lba: nat): Sector { Sector(dev, lba) }
  }

  ghost predicate DriveOn(d: Drive, disk: Disk) {
    d.size > 0 && forall lba: nat :: lba < d.count ==> d.Key(lba) in disk && |disk[d.Key(lba)]| == d.size
  }

  // ---------- positions and sectors ----------

  lemma DivUnique(a: int, q: int, r: int, s: int)
    requires s > 0 && a == q * s + r && 0 <= r < s
    ensures a / s == q && a % s == r
  {
    assert s * q == q * s;
    Division.Floor(a, s, q);
  }

  /** The loop bound of lines 199 and 268: the last sector is rounded up. */
  lemma RoundUp(q: nat, a: nat, s: nat)
    requires s > 0
    ensures q < (a + s - 1) / s <==> q * s < a
  {
    var c := (a + s - 1) / s;
    assert c * s <= a + s - 1 < c * s + s;
    if q < c { assert (q + 1) * s <= c * s; } else { assert c * s <= q * s; }
  }

  /** Position `pos` of the drive holds the byte `b`. */
  ghost predicate ByteAt(view: Disk, d: Drive, pos: nat, b: Byte)
    requires DriveOn(d, view)
  {
    pos / d.size < d.count && view[d.Key(pos / d.size)][pos % d.size] == b
  }

  /** `buf` is what the drive holds from `offset` on. */
  ghost predicate Holds(view: Disk, d: Drive, offset: nat, buf: seq<Byte>)
    requires DriveOn(d, view)
  {
    forall i :: 0 <= i < |buf| ==> ByteAt(view, d, offset + i, buf[i])
  }

  lemma HoldsMore(view: Disk, d: Drive, offset: nat, buf: seq<Byte>, pos: nat, chunk: seq<Byte>)
    requires DriveOn(d, view) && Holds(view, d, offset, buf) && pos == offset + |buf|
    requires forall x :: 0 <= x < |chunk| ==> ByteAt(view, d, pos + x, chunk[x])
    ensures Holds(view, d, offset, buf + chunk)
  {
    forall i | 0 <= i < |buf + chunk|
      ensures ByteAt(view, d, offset + i, (buf + chunk)[i])
    {
      if i >= |buf| { assert ByteAt(view, d, pos + (i - |buf|), chunk[i - |buf|]); }
    }
  }

  lemma HoldsChunk(view: Disk, d: Drive, offset: nat, buf: seq<Byte>, lba: nat, base: nat, at: nat, n: nat)
    requires DriveOn(d, view) && Holds(view, d, offset, buf) && StartsAt(d, lba, base) && base + at == offset + |buf|
    requires lba < d.count && at + n <= d.size
    ensures Holds(view, d, offset, buf + view[d.Key(lba)][at..at + n])
  {
    var chunk := view[d.Key(lba)][at..at + n];
    forall x | 0 <= x < |chunk| ensures ByteAt(view, d, base + at + x, chunk[x]) {
      OffsetInSector(d, lba, base, at + x);
      assert base + at + x == base + (at + x);
    }
    HoldsMore(view, d, offset, buf, base + at, chunk);
  }

  // ---------- the progress of a transfer ----------

  function Max(a: int, b: int): int { if a < b then b else a }

  /** How many bytes a sector contributes from `at` on when `left` are still wanted. */
  function ChunkLen(at: nat, size: nat, left: nat): nat
    requires at < size
  {
    Min(size - at, left)
  }

  /** Sector `lba` starts at position `base`. */
  ghost predicate StartsAt(d: Drive, lba: nat, base: nat) {
    base == lba * d.size
  }

  /** `done` of `cnt` bytes are transferred; the sector at position `base` is next, from its byte `at`. */
  ghost predicate Progress(d: Drive, offset: nat, cnt: nat, done: nat, base: nat, at: nat) {
    && done <= cnt
    && (done < cnt ==> offset + done == base + at && at < d.size && (done > 0 ==> at == 0))
    && (done == cnt ==> offset + cnt <= base)
  }

  /** The byte offset computed at lines 225 and 321. */
  lemma OffsetInSector(d: Drive, lba: nat, base: nat, at: nat)
    requires StartsAt(d, lba, base) && at < d.size
    ensures (base + at) % d.size == at && (base + at) / d.size == lba
  {
    DivUnique(base + at, lba, at, d.size);
  }

  lemma NextStart(d: Drive, lba: nat, base: nat)
    requires StartsAt(d, lba, base)
    ensures StartsAt(d, lba + 1, base + d.size)
  {
    assert (lba + 1) * d.size == lba * d.size + d.size;
  }

  lemma MulMono(a: nat, b: nat, s: nat)
    requires a <= b
    ensures a * s <= b * s
  {
  }

  // ---------- reading ----------

  /** What the surroundings answer for a sector: whether check_eintr finds a signal when the sector is looked up, and
      when it is looked up again after a fetch, and whether memory for it or the drive fails. */
  datatype World = World(signal: (Sector, bool) -> bool, noMemory: Sector -> bool, unreadable: Sector -> bool)

  predicate Calm(w: World, k: Sector) {
    !w.signal(k, false) && !w.signal(k, true) && !w.noMemory(k) && !w.unreadable(k)
  }

  lemma SameValue(view: Disk, k: Sector, data: seq<Byte>)
    requires k in view && view[k] == data
    ensures view[k := data] == view
  {
  }

  /** Lines 160-180. */
  method Fetch(c: Cache, k: Sector, w: World) returns (err: int)
    requires c.Valid() && k in c.disk && !c.Cached(k)
    modifies c
    ensures c.Valid() && c.Logical() == old(c.Logical()) && OnlyWriteBacks(old(c.disk), c.disk, c.Logical())
    ensures err == if w.noMemory(k) then -ENOMEM else if w.unreadable(k) then -EIO else 0
    ensures err == 0 ==> c.Cached(k)
  {
    if w.noMemory(k) { return -ENOMEM; }
    if w.unreadable(k) { return -EIO; }
    SameValue(c.Logical(), k, c.disk[k]);
    c.Set(k, c.disk[k], false);
    err := 0;
  }

  datatype Lookup = Found(data: seq<Byte>) | Interrupted | Failed(err: int)

  /** How an attempt at a sector can end: a signal before it ends it; otherwise a cached sector is found, and for one
      that is not cached memory is needed, and perhaps the drive. */
  ghost predicate Answers(r: Lookup, w: World, k: Sector, cached: bool) {
    && (w.signal(k, false) ==> r.Interrupted?)
    && (r.Interrupted? ==> w.signal(k, false) || (!cached && w.signal(k, true)))
    && (r.Failed? ==> !cached && (r.err == -ENOMEM || r.err == -EIO))
    && (r.Failed? && r.err == -ENOMEM ==> w.noMemory(k))
    && (r.Failed? && r.err == -EIO ==> w.unreadable(k) && !w.noMemory(k))
    && (r.Found? && !cached ==> !w.noMemory(k))
  }

  /** Lines 203-220: look the sector up, fetching it first if need be; a signal ends the attempt. */
  method LookUp(c: Cache, k: Sector, w: World) returns (r: Lookup)
    requires c.Valid() && k in c.disk
    modifies c
    ensures c.Valid() && c.Logical() == old(c.Logical()) && OnlyWriteBacks(old(c.disk), c.disk, c.Logical())
    ensures r.Found? ==> c.Cached(k) && r.data == c.Logical()[k] && |r.data| == |c.disk[k]|
    ensures Answers(r, w, k, old(c.Cached(k)))
    ensures r.Found? && !old(c.Cached(k)) ==> !w.unreadable(k)
    ensures old(c.Cached(k)) ==> c.buckets == old(c.buckets) && c.disk == old(c.disk)
  {
    if w.signal(k, false) { return Interrupted; }
    if !Has(c.buckets[c.hash(k)], k) {
      var err := Fetch(c, k, w);
      if err < 0 { return Failed(err); }
      if w.signal(k, true) { return Interrupted; }
    }
    var b := c.buckets[c.hash(k)];
    assert BucketValid(c.hash, c.hash(k), b, c.disk) && EntryOk(b[Find(b, k)], c.disk);
    r := Found(b[Find(b, k)].data);
  }

  // ---------- how a transfer ends ----------

  /** The `cnt` bytes from `offset` on, and the bounds of the loops over their sectors. */
  datatype Span = Span(offset: nat, cnt: nat, first: nat, last: nat)

  /** The loops come to a sector exactly if it has a byte of the span. */
  ghost predicate Spans(s: Span, d: Drive) {
    d.size > 0 && forall l: nat :: Meets(s, d, l)
  }

  ghost predicate Meets(s: Span, d: Drive, l: nat) {
    (s.first <= l <==> s.offset < l * d.size + d.size) && (l < s.last <==> l * d.size < s.offset + s.cnt)
  }

  /** Lines 198-200 and 267-269. */
  function SpanOf(d: Drive, offset: nat, cnt: nat): (s: Span)
    requires d.size > 0
    ensures Spans(s, d)
  {
    var s := Span(offset, cnt, offset / d.size, (offset + cnt + d.size - 1) / d.size);
    assert Spans(s, d) by {
      forall l: nat ensures Meets(s, d, l) {
        RoundUp(l, offset + cnt, d.size);
        SectorOf(l, offset, d.size);
      }
    }
    s
  }

  lemma SectorOf(l: nat, a: nat, s: nat)
    requires s > 0
    ensures a / s <= l <==> a < l * s + s
  {
    var q := a / s;
    assert q * s <= a < q * s + s;
    if q <= l { MulMono(q, l, s); } else { MulMono(l + 1, q, s); }
  }

  /** Sector `l` has a byte of the range. */
  ghost predicate InRange(d: Drive, offset: nat, cnt: nat, l: nat) {
    l < d.count && offset < l * d.size + d.size && l * d.size < offset + cnt
  }

  /** How many of the bytes asked for the drive has. */
  function Full(d: Drive, offset: nat, cnt: nat): int { Min(cnt, Max(0, d.count * d.size - offset)) }

  /** What made a transfer return `ret` at sector `k`, `done` bytes having been transferred. */
  ghost predicate Cause(w: World, k: Sector, ret: int, done: nat) {
    || (ret == -EIO && w.unreadable(k) && !w.noMemory(k))
    || (ret == -ENOMEM && w.noMemory(k))
    || (ret == (if done == 0 then -EINTR else done) && (w.signal(k, false) || w.signal(k, true)))
  }

  /** No sector of [first, stop) was passed in spite of a signal. */
  ghost predicate Heeded(w: World, d: Drive, first: nat, stop: nat) {
    forall l: nat :: first <= l < stop ==> Undisturbed(w, d, l)
  }

  ghost predicate Undisturbed(w: World, d: Drive, l: nat) { !w.signal(d.Key(l), false) }

  /** The transfer is complete, or it ended at sector `stop`, with everything before that sector transferred, for a
      cause there. */
  ghost predicate Ended(w: World, d: Drive, s: Span, ret: int, done: nat, stop: nat) {
    match s case Span(offset, cnt, first, last) =>
      && Heeded(w, d, first, stop)
      && if first <= stop < last && stop < d.count then
           done < cnt && done == Max(0, stop * d.size - offset) && Cause(w, d.Key(stop), ret, done)
         else ret == done == Full(d, offset, cnt) && (stop >= last || stop >= d.count)
  }

  /** Every sector of the span is in the cache. */
  ghost predicate AllCached(hash: Sector -> nat, t: seq<seq<Entry>>, d: Drive, s: Span) {
    match s case Span(_, _, first, last) =>
      forall l: nat :: first <= l < last && l < d.count ==> CachedIn(hash, t, d, l)
  }

  ghost predicate CachedIn(hash: Sector -> nat, t: seq<seq<Entry>>, d: Drive, l: nat) {
    hash(d.Key(l)) < |t| && Has(t[hash(d.Key(l))], d.Key(l))
  }

  /** Sectors stay in the cache when the same ones are cached. */
  lemma StillCached(hash: Sector -> nat, t: seq<seq<Entry>>, t': seq<seq<Entry>>, d: Drive, s: Span)
    requires SameKeys(t, t') && AllCached(hash, t, d, s)
    ensures AllCached(hash, t', d, s)
  {
    forall l: nat | s.first <= l < s.last && l < d.count ensures CachedIn(hash, t', d, l) {
      assert CachedIn(hash, t, d, l);
      SameKeysHas(t, t', hash(d.Key(l)), d.Key(l));
    }
  }

  /** A transfer has come to sector `lba`. */
  ghost predicate Under(w: World, d: Drive, s: Span, done: nat, lba: nat, base: nat, at: nat) {
    match s case Span(offset, cnt, first, last) =>
      && StartsAt(d, lba, base) && Progress(d, offset, cnt, done, base, at)
      && first <= lba && (done == 0 <==> lba == first) && (done > 0 ==> lba <= d.count)
      && Heeded(w, d, first, lba)
  }

  lemma Begin(w: World, d: Drive, s: Span) returns (base: nat, at: nat)
    requires Spans(s, d) && s.cnt > 0
    ensures Under(w, d, s, 0, s.first, base, at)
  {
    base := s.first * d.size;
    assert Meets(s, d, s.first);
    if s.first > 0 {
      assert Meets(s, d, s.first - 1);
      assert (s.first - 1) * d.size + d.size == base;
    }
    at := s.offset - base;
  }

  lemma StillWanted(w: World, d: Drive, s: Span, done: nat, lba: nat, base: nat, at: nat)
    requires Spans(s, d) && Under(w, d, s, done, lba, base, at) && lba < s.last
    ensures done < s.cnt && done == Max(0, lba * d.size - s.offset)
  {
    assert Meets(s, d, lba);
  }

  lemma PassedOn(w: World, d: Drive, s: Span, done: nat, lba: nat, base: nat, at: nat, done': nat)
    requires Under(w, d, s, done, lba, base, at) && lba < d.count && !w.signal(d.Key(lba), false)
    requires done < done' && Progress(d, s.offset, s.cnt, done', base + d.size, 0)
    ensures Under(w, d, s, done', lba + 1, base + d.size, 0)
  {
    NextStart(d, lba, base);
  }

  /** What a transfer returns when an attempt fails. */
  function Outcome(r: Lookup, done: nat): int
    requires !r.Found?
  {
    if r.Failed? then r.err else if done == 0 then -EINTR else done
  }

  lemma EndsHere(w: World, d: Drive, s: Span, done: nat, lba: nat, base: nat, at: nat, r: Lookup, cached: bool)
    requires Spans(s, d) && Under(w, d, s, done, lba, base, at) && lba < s.last && lba < d.count
    requires !r.Found? && Answers(r, w, d.Key(lba), cached)
    ensures Ended(w, d, s, Outcome(r, done), done, lba)
  {
    StillWanted(w, d, s, done, lba, base, at);
  }

  /** Without interruption a transfer stops at the end of the range or of the drive. */
  lemma EndsFull(w: World, d: Drive, s: Span, done: nat, lba: nat, base: nat, at: nat)
    requires Spans(s, d) && Under(w, d, s, done, lba, base, at) && (lba >= s.last || lba >= d.count)
    ensures done == Full(d, s.offset, s.cnt) && Ended(w, d, s, done, done, lba)
  {
    assert Meets(s, d, lba);
    if lba <= d.count { MulMono(lba, d.count, d.size); }
    if lba >= d.count { MulMono(d.count, lba, d.size); }
  }

  /** No signal and no failure at any sector of the range. */
  ghost predicate AllCalm(w: World, d: Drive, offset: nat, cnt: nat) {
    forall l: nat :: InRange(d, offset, cnt, l) ==> Calm(w, d.Key(l))
  }

  /** Without signals and failures a transfer is complete. */
  lemma CalmIsFull(w: World, d: Drive, s: Span, ret: int, done: nat, stop: nat)
    requires Spans(s, d) && Ended(w, d, s, ret, done, stop)
    requires AllCalm(w, d, s.offset, s.cnt)
    ensures ret == Full(d, s.offset, s.cnt)
  {
    assert Meets(s, d, stop);
    if InRange(d, s.offset, s.cnt, stop) { assert Calm(w, d.Key(stop)); }
  }

  /** An error has its cause in a sector of the range, and so has a count that falls short. */
  lemma ErrorHasCause(w: World, d: Drive, s: Span, ret: int, done: nat, stop: nat)
    requires Spans(s, d) && Ended(w, d, s, ret, done, stop)
    ensures ret == -EIO ==> exists l: nat :: InRange(d, s.offset, s.cnt, l) && w.unreadable(d.Key(l))
    ensures ret == -ENOMEM ==> exists l: nat :: InRange(d, s.offset, s.cnt, l) && w.noMemory(d.Key(l))
    ensures ret == -EINTR || 0 <= ret < Full(d, s.offset, s.cnt) ==>
      exists l: nat :: InRange(d, s.offset, s.cnt, l) && (w.signal(d.Key(l), false) || w.signal(d.Key(l), true))
  {
    assert Meets(s, d, stop);
    assert ret != Full(d, s.offset, s.cnt) ==> Cause(w, d.Key(stop), ret, done) && InRange(d, s.offset, s.cnt, stop);
  }

  /** A transfer that is complete has heeded the signals at all sectors of its range. */
  lemma FullHeeds(w: World, d: Drive, s: Span, ret: int, done: nat, stop: nat, l: nat)
    requires Spans(s, d) && Ended(w, d, s, ret, done, stop) && ret == Full(d, s.offset, s.cnt)
    requires InRange(d, s.offset, s.cnt, l)
    ensures !w.signal(d.Key(l), false)
  {
    assert Meets(s, d, l) && Meets(s, d, stop);
    assert l < stop ==> Undisturbed(w, d, l);
    if stop < d.count { MulMono(stop + 1, d.count, d.size); }
  }

  /** Lines 225-243 and 321-341: the part of the current sector that belongs to the range.  Adding the
      whole of `cnt` in the second case is right, since only the first sector is entered midway. */
  method NextChunk(d: Drive, offset: nat, cnt: nat, done: nat, ghost lba: nat, ghost base: nat, ghost at0: nat)
    returns (at: nat, n: nat, done': nat)
    requires d.size > 0 && StartsAt(d, lba, base) && Progress(d, offset, cnt, done, base, at0) && done < cnt
    ensures at == at0 && n == ChunkLen(at, d.size, cnt - done) && n > 0 && done' == done + n
    ensures Progress(d, offset, cnt, done', base + d.size, 0)
  {
    OffsetInSector(d, lba, base, at0);
    at := (offset + done) % d.size;
    if at != 0 {
      if d.size - at < cnt - done {
        n := d.size - at;
        done' := done + n;
      } else {
        n := cnt - done;
        done' := done + cnt;
      }
    } else if d.size > cnt - done {
      n := cnt - done;
      done' := done + n;
    } else {
      n := d.size;
      done' := done + n;
    }
  }

  /** The cache is in order and shows `view`. */
  ghost predicate Shows(c: Cache, view: Disk)
    reads c
  {
    c.Valid() && IsView(c.hash, c.buckets, c.disk, view)
  }

  /** Lines 203-245: one turn of the loop. */
  method ReadSector(c: Cache, d: Drive, cnt: nat, offset: nat, read: nat, lba: nat, w: World, ghost view: Disk,
                    ghost base: nat, ghost at0: nat, ghost buf: seq<Byte>)
    returns (r: Lookup, read': nat, chunk: seq<Byte>, ghost cached: bool)
    requires Shows(c, view) && DriveOn(d, view) && lba < d.count
    requires StartsAt(d, lba, base) && Progress(d, offset, cnt, read, base, at0) && read < cnt
    requires |buf| == read && Holds(view, d, offset, buf)
    modifies c
    ensures Shows(c, view) && Answers(r, w, d.Key(lba), cached)
    ensures cached == old(CachedIn(c.hash, c.buckets, d, lba)) && (cached ==> c.buckets == old(c.buckets))
    ensures r.Found? ==> read < read' == read + |chunk| && Progress(d, offset, cnt, read', base + d.size, 0)
    ensures r.Found? ==> Holds(view, d, offset, buf + chunk)
  {
    ViewIs(c.hash, c.buckets, c.disk, view);
    cached := CachedIn(c.hash, c.buckets, d, lba);
    r := LookUp(c, d.Key(lba), w);
    ViewIs(c.hash, c.buckets, c.disk, view);
    read', chunk := read, [];
    if r.Found? {
      var at, n;
      at, n, read' := NextChunk(d, offset, cnt, read, lba, base, at0);
      HoldsChunk(view, d, offset, buf, lba, base, at, n);
      chunk := r.data[at..at + n];
    }
  }

  /** The same turn, and how the transfer ends if the attempt fails. */
  method ReadTurn(c: Cache, d: Drive, s: Span, read: nat, lba: nat, w: World, ghost view: Disk, ghost base: nat,
                  ghost at0: nat, ghost buf: seq<Byte>)
    returns (r: Lookup, read': nat, chunk: seq<Byte>)
    requires Shows(c, view) && DriveOn(d, view) && Spans(s, d) && lba < s.last && lba < d.count
    requires Under(w, d, s, read, lba, base, at0)
    requires |buf| == read && Holds(view, d, s.offset, buf)
    modifies c
    ensures Shows(c, view)
    ensures r.Found? ==> read' == read + |chunk| && Under(w, d, s, read', lba + 1, base + d.size, 0)
    ensures r.Found? ==> Holds(view, d, s.offset, buf + chunk)
    ensures !r.Found? ==> Ended(w, d, s, Outcome(r, read), read, lba)
    ensures old(AllCached(c.hash, c.buckets, d, s)) ==>
      AllCached(c.hash, c.buckets, d, s) && (!r.Found? ==> r.Interrupted? && w.signal(d.Key(lba), false))
  {
    ghost var cached;
    StillWanted(w, d, s, read, lba, base, at0);
    assert AllCached(c.hash, c.buckets, d, s) ==> CachedIn(c.hash, c.buckets, d, lba);
    r, read', chunk, cached := ReadSector(c, d, s.cnt, s.offset, read, lba, w, view, base, at0, buf);
    if r.Found? {
      PassedOn(w, d, s, read, lba, base, at0, read');
    } else {
      EndsHere(w, d, s, read, lba, base, at0, r, cached);
    }
  }

  /** Lines 198-248. */
  method ReadRange(c: Cache, d: Drive, s: Span, w: World, ghost view: Disk)
    returns (ret: int, buf: seq<Byte>, ghost stop: nat)
    requires Shows(c, view) && DriveOn(d, view) && Spans(s, d) && s.cnt > 0
    modifies c
    ensures Shows(c, view) && Ended(w, d, s, ret, |buf|, stop) && Holds(view, d, s.offset, buf)
    ensures old(AllCached(c.hash, c.buckets, d, s)) && ret != Full(d, s.offset, s.cnt) ==>
      ret == (if buf == [] then -EINTR else |buf|) && w.signal(d.Key(stop), false)
  {
    ghost var all := AllCached(c.hash, c.buckets, d, s);
    buf := [];
    var lba, read := s.first, 0;
    ghost var base: nat, at0: nat := Begin(w, d, s);
    while lba < s.last && lba < d.count
      invariant Shows(c, view) && (all ==> AllCached(c.hash, c.buckets, d, s))
      invariant Under(w, d, s, read, lba, base, at0)
      invariant |buf| == read && Holds(view, d, s.offset, buf)
      decreases d.count - lba
    {
      var r, read', chunk := ReadTurn(c, d, s, read, lba, w, view, base, at0, buf);
      if !r.Found? { return Outcome(r, read), buf, lba; }
      buf, read, lba := buf + chunk, read', lba + 1;
      base, at0 := base + d.size, 0;
    }
    EndsFull(w, d, s, read, lba, base, at0);
    return read, buf, lba;
  }

  /** Lines 196-248. */
  method ReadDrive(c: Cache, d: Drive, cnt: nat, offset: nat, w: World)
    returns (ret: int, buf: seq<Byte>, ghost s: Span, ghost stop: nat)
    requires c.Valid() && DriveOn(d, c.Logical()) && cnt > 0
    modifies c
    ensures c.Valid() && c.Logical() == old(c.Logical()) && Holds(old(c.Logical()), d, offset, buf)
    ensures s.offset == offset && s.cnt == cnt && Spans(s, d) && Ended(w, d, s, ret, |buf|, stop)
    ensures AllCalm(w, d, offset, cnt) ==> ret == Full(d, offset, cnt)
    ensures old(AllCached(c.hash, c.buckets, d, s)) ==> ret != -EIO && ret != -ENOMEM
  {
    var span := SpanOf(d, offset, cnt);
    s := span;
    ghost var view := c.Logical();
    ViewIs(c.hash, c.buckets, c.disk, view);
    ret, buf, stop := ReadRange(c, d, span, w, view);
    ViewIs(c.hash, c.buckets, c.disk, view);
    if AllCalm(w, d, offset, cnt) { CalmIsFull(w, d, s, ret, |buf|, stop); }
  }

  /** Lines 182-249.  The transfer is complete unless it ended at sector `stop`. */
  method Read(c: Cache, drive: Option<Drive>, count: nat, offset: nat, w: World)
    returns (ret: int, buf: seq<Byte>, ghost s: Span, ghost stop: nat)
    requires c.Valid() && (drive.Some? ==> DriveOn(drive.value, c.Logical()))
    modifies c
    ensures c.Valid() && c.Logical() == old(c.Logical())
    ensures drive.None? || count == 0 ==> ret == (if count == 0 then 0 else -ENODEV) && buf == []
    ensures drive.Some? ==> Holds(old(c.Logical()), drive.value, offset, buf) && (ret >= 0 ==> |buf| == ret)
    ensures drive.Some? && count > 0 ==>
      s.offset == offset && s.cnt == Min(count, SSIZE_MAX) && Spans(s, drive.value)
    ensures drive.Some? && count > 0 ==> Ended(w, drive.value, s, ret, |buf|, stop)
    ensures drive.Some? && AllCalm(w, drive.value, offset, Min(count, SSIZE_MAX)) ==>
      ret == Min(Min(count, SSIZE_MAX), Max(0, drive.value.count * drive.value.size - offset))
    ensures drive.Some? && count > 0 && old(AllCached(c.hash, c.buckets, drive.value, s)) ==>
      ret != -EIO && ret != -ENOMEM
  {
    s, stop := Span(0, 0, 0, 0), 0;
    var cnt := if count > SSIZE_MAX then SSIZE_MAX else count;
    if cnt == 0 { return 0, [], s, stop; }
    if drive.None? { return -ENODEV, [], s, stop; }
    ret, buf, s, stop := ReadDrive(c, drive.value, cnt, offset, w);
  }

  // ---------- writing ----------

  /** Byte `i` of sector `k` after `bytes` were written at position `offset`. */
  ghost function Expected(before: Disk, d: Drive, offset: nat, bytes: seq<Byte>, k: Sector, i: nat): Byte
    requires k in before && i < |before[k]|
  {
    var pos := k.lba * d.size + i;
    if k.dev == d.dev && k.lba < d.count && offset <= pos < offset + |bytes| then bytes[pos - offset] else before[k][i]
  }

  /** Exactly the bytes of the range changed, to the given ones. */
  ghost predicate Wrote(before: Disk, after: Disk, d: Drive, offset: nat, bytes: seq<Byte>) {
    before.Keys == after.Keys && forall k :: k in before ==> SectorWrote(before, after[k], d, offset, bytes, k)
  }

  ghost predicate SectorWrote(before: Disk, data: seq<Byte>, d: Drive, offset: nat, bytes: seq<Byte>, k: Sector)
    requires k in before
  {
    |data| == |before[k]| && forall i :: 0 <= i < |data| ==> data[i] == Expected(before, d, offset, bytes, k, i)
  }

  lemma PatchedSector(before: Disk, data: seq<Byte>, d: Drive, offset: nat, bytes: seq<Byte>, lba: nat, at: nat,
    chunk: seq<Byte>)
    requires DriveOn(d, before) && lba < d.count && SectorWrote(before, data, d, offset, bytes, d.Key(lba))
    requires lba * d.size + at == offset + |bytes| && at + |chunk| <= d.size
    ensures SectorWrote(before, Put(data, at, chunk), d, offset, bytes + chunk, d.Key(lba))
  {
    var k := d.Key(lba);
    var patched := Put(data, at, chunk);
    forall i | 0 <= i < |patched| ensures patched[i] == Expected(before, d, offset, bytes + chunk, k, i) {
      assert data[i] == Expected(before, d, offset, bytes, k, i);
    }
  }

  lemma OtherSector(before: Disk, data: seq<Byte>, d: Drive, offset: nat, bytes: seq<Byte>, lba: nat, at: nat,
                    chunk: seq<Byte>, k: Sector)
    requires DriveOn(d, before) && lba < d.count && k in before && k != d.Key(lba)
    requires SectorWrote(before, data, d, offset, bytes, k)
    requires lba * d.size + at == offset + |bytes| && at + |chunk| <= d.size
    ensures SectorWrote(before, data, d, offset, bytes + chunk, k)
  {
    if k.dev == d.dev && k.lba < d.count {
      assert k == d.Key(k.lba) && |data| == d.size;
      assert (k.lba + 1) * d.size == k.lba * d.size + d.size && (lba + 1) * d.size == lba * d.size + d.size;
      if k.lba < lba { MulMono(k.lba + 1, lba, d.size); } else { MulMono(lba + 1, k.lba, d.size); }
    }
    forall i | 0 <= i < |data| ensures data[i] == Expected(before, d, offset, bytes + chunk, k, i) {
      assert data[i] == Expected(before, d, offset, bytes, k, i);
    }
  }

  lemma WroteMore(before: Disk, after: Disk, d: Drive, offset: nat, bytes: seq<Byte>, lba: nat, at: nat,
    chunk: seq<Byte>)
    requires DriveOn(d, before) && lba < d.count && Wrote(before, after, d, offset, bytes)
    requires lba * d.size + at == offset + |bytes| && at + |chunk| <= d.size
    ensures d.Key(lba) in after && |after[d.Key(lba)]| == d.size
    ensures Wrote(before, after[d.Key(lba) := Put(after[d.Key(lba)], at, chunk)], d, offset, bytes + chunk)
  {
    var k0 := d.Key(lba);
    assert SectorWrote(before, after[k0], d, offset, bytes, k0);
    var patched := after[k0 := Put(after[k0], at, chunk)];
    forall k | k in before ensures SectorWrote(before, patched[k], d, offset, bytes + chunk, k) {
      assert SectorWrote(before, after[k], d, offset, bytes, k);
      if k == k0 {
        PatchedSector(before, after[k], d, offset, bytes, lba, at, chunk);
      } else {
        OtherSector(before, after[k], d, offset, bytes, lba, at, chunk, k);
      }
    }
  }

  /** Lines 284-309: a whole sector that is not cached. */
  method WriteWhole(c: Cache, k: Sector, block: seq<Byte>, sync: bool, w: World) returns (r: Lookup)
    requires c.Valid() && k in c.disk && !c.Cached(k) && |block| == |c.disk[k]|
    modifies c
    ensures c.Valid() && SyncedElsewhere(old(c.disk), c.disk, old(c.Logical()), k)
    ensures c.Logical() == if r.Found? then old(c.Logical())[k := block] else old(c.Logical())
    ensures r.Found? && sync ==> c.disk[k] == block
    ensures r.Interrupted? <==> w.signal(k, false)
    ensures r.Failed? <==> !w.signal(k, false) && w.noMemory(k)
    ensures r.Failed? ==> r.err == -ENOMEM
  {
    if w.signal(k, false) { return Interrupted; }
    if w.noMemory(k) { return Failed(-ENOMEM); }
    c.StoreWhole(k, block, sync);
    r := Found(block);
  }

  lemma ElsewhereAfterStore(d0: Disk, d1: Disk, d2: Disk, view: Disk, k: Sector, data: seq<Byte>)
    requires OnlyWriteBacks(d0, d1, view) && k in d1 && (d2 == d1 || d2 == d1[k := data])
    ensures SyncedElsewhere(d0, d2, view, k)
  {
  }

  /** Lines 311-351: read the sector in if need be, then change a part of it. */
  method WritePart(c: Cache, k: Sector, at: nat, chunk: seq<Byte>, sync: bool, w: World) returns (r: Lookup)
    requires c.Valid() && k in c.disk && at + |chunk| <= |c.Logical()[k]| == |c.disk[k]|
    modifies c
    ensures c.Valid() && SyncedElsewhere(old(c.disk), c.disk, old(c.Logical()), k)
    ensures c.Logical() == if r.Found? then old(c.Logical())[k := Put(old(c.Logical()[k]), at, chunk)]
                           else old(c.Logical())
    ensures r.Found? && sync ==> c.disk[k] == Put(old(c.Logical()[k]), at, chunk)
    ensures Answers(r, w, k, old(c.Cached(k)))
    ensures old(c.Cached(k)) ==> SameKeys(old(c.buckets), c.buckets)
  {
    ghost var disk, view := c.disk, c.Logical();
    r := LookUp(c, k, w);
    if r.Found? {
      ghost var disk' := c.disk;
      c.Store(k, Put(r.data, at, chunk), sync);
      ElsewhereAfterStore(disk, disk', c.disk, view, k, c.disk[k]);
    }
  }

  /** Lines 272-355 for one sector.  A whole sector is written without being read. */
  method WriteSector(c: Cache, k: Sector, at: nat, chunk: seq<Byte>, sync: bool, w: World) returns (r: Lookup)
    requires c.Valid() && k in c.disk && at + |chunk| <= |c.Logical()[k]| == |c.disk[k]|
    modifies c
    ensures c.Valid() && SyncedElsewhere(old(c.disk), c.disk, old(c.Logical()), k)
    ensures c.Logical() == if r.Found? then old(c.Logical())[k := Put(old(c.Logical()[k]), at, chunk)]
                           else old(c.Logical())
    ensures r.Found? && sync ==> c.disk[k] == c.Logical()[k]
    ensures Answers(r, w, k, old(c.Cached(k)))
    ensures at == 0 && |chunk| == |old(c.disk)[k]| && r.Failed? ==> r.err == -ENOMEM
    ensures old(c.Cached(k)) ==> SameKeys(old(c.buckets), c.buckets)
  {
    if at == 0 && |chunk| == |c.disk[k]| && !Has(c.buckets[c.hash(k)], k) {
      assert Put(c.Logical()[k], 0, chunk) == chunk;
      r := WriteWhole(c, k, chunk, sync, w);
    } else {
      r := WritePart(c, k, at, chunk, sync, w);
    }
  }

  /** The sectors [from, to) of the drive are the same on disk. */
  ghost predicate Synced(disk: Disk, view: Disk, d: Drive, from: nat, to: nat) {
    forall l: nat :: from <= l < to ==> SyncedAt(disk, view, d, l)
  }

  ghost predicate SyncedAt(disk: Disk, view: Disk, d: Drive, l: nat) {
    d.Key(l) in view && d.Key(l) in disk ==> disk[d.Key(l)] == view[d.Key(l)]
  }

  lemma SyncedMore(disk: Disk, disk': Disk, view: Disk, view': Disk, d: Drive, from: nat, lba: nat)
    requires Synced(disk, view, d, from, lba) && SyncedElsewhere(disk, disk', view, d.Key(lba))
    requires view'.Keys == view.Keys && forall k :: k in view && k != d.Key(lba) ==> view'[k] == view[k]
    ensures Synced(disk', view', d, from, lba)
    ensures d.Key(lba) in view && disk'[d.Key(lba)] == view'[d.Key(lba)] ==> Synced(disk', view', d, from, lba + 1)
  {
    forall l: nat | from <= l < lba ensures SyncedAt(disk', view', d, l) {
      assert d.Key(l) != d.Key(lba) && SyncedAt(disk, view, d, l);
    }
  }

  /** Every sector with a byte in [offset, end) is the same on disk. */
  ghost predicate SyncedBytes(disk: Disk, view: Disk, d: Drive, offset: nat, end: nat) {
    forall l: nat :: offset < l * d.size + d.size && l * d.size < end ==> SyncedAt(disk, view, d, l)
  }

  lemma SyncedRange(w: World, disk: Disk, view: Disk, d: Drive, s: Span, done: nat, lba: nat, base: nat, at: nat)
    requires Spans(s, d) && Under(w, d, s, done, lba, base, at) && Synced(disk, view, d, s.first, lba)
    ensures done > 0 ==> SyncedBytes(disk, view, d, s.offset, s.offset + done)
  {
    forall l: nat | done > 0 && s.offset < l * d.size + d.size && l * d.size < s.offset + done
      ensures SyncedAt(disk, view, d, l)
    {
      assert Meets(s, d, l);
      if l >= lba { MulMono(lba, l, d.size); }
    }
  }

  /** One turn of the loop of lines 267-356. */
  method WriteTurn(c: Cache, d: Drive, lba: nat, at: nat, chunk: seq<Byte>, sync: bool, w: World, ghost before: Disk,
                   ghost view: Disk, offset: nat, ghost bytes: seq<Byte>, ghost from: nat)
    returns (r: Lookup, ghost view': Disk, ghost cached: bool)
    requires Shows(c, view) && DriveOn(d, before) && lba < d.count && at + |chunk| <= d.size
    requires Wrote(before, view, d, offset, bytes) && lba * d.size + at == offset + |bytes|
    requires sync ==> Synced(c.disk, view, d, from, lba)
    modifies c
    ensures Shows(c, view') && Wrote(before, view', d, offset, if r.Found? then bytes + chunk else bytes)
    ensures sync ==> Synced(c.disk, view', d, from, if r.Found? then lba + 1 else lba)
    ensures Answers(r, w, d.Key(lba), cached) && cached == old(CachedIn(c.hash, c.buckets, d, lba))
    ensures cached ==> SameKeys(old(c.buckets), c.buckets)
  {
    ViewIs(c.hash, c.buckets, c.disk, view);
    WroteMore(before, view, d, offset, bytes, lba, at, chunk);
    ghost var disk := c.disk;
    cached := CachedIn(c.hash, c.buckets, d, lba);
    r := WriteSector(c, d.Key(lba), at, chunk, sync, w);
    view' := c.Logical();
    ViewIs(c.hash, c.buckets, c.disk, view');
    if sync { SyncedMore(disk, c.disk, view, view', d, from, lba); }
  }

  lemma Joined(buf: seq<Byte>, a: nat, b: nat)
    requires a <= b <= |buf|
    ensures buf[..a] + buf[a..b] == buf[..b]
  {
  }

  /** The same turn, and how the transfer ends if the attempt fails. */
  method WriteStep(c: Cache, d: Drive, s: Span, lba: nat, buf: seq<Byte>, written: nat, sync: bool, w: World,
                   ghost before: Disk, ghost view: Disk, ghost base: nat, ghost at0: nat)
    returns (r: Lookup, written': nat, ghost view': Disk)
    requires Shows(c, view) && DriveOn(d, before) && Spans(s, d) && lba < s.last && lba < d.count
    requires |buf| == s.cnt && written <= |buf| && Under(w, d, s, written, lba, base, at0)
    requires Wrote(before, view, d, s.offset, buf[..written])
    requires sync ==> Synced(c.disk, view, d, s.first, lba)
    modifies c
    ensures Shows(c, view') && written' <= |buf| && Wrote(before, view', d, s.offset, buf[..written'])
    ensures sync ==> Synced(c.disk, view', d, s.first, if r.Found? then lba + 1 else lba)
    ensures r.Found? ==> Under(w, d, s, written', lba + 1, base + d.size, 0)
    ensures !r.Found? ==> written' == written && Ended(w, d, s, Outcome(r, written), written, lba)
    ensures old(AllCached(c.hash, c.buckets, d, s)) ==>
      AllCached(c.hash, c.buckets, d, s) && (!r.Found? ==> r.Interrupted? && w.signal(d.Key(lba), false))
  {
    ghost var all, t, cached := AllCached(c.hash, c.buckets, d, s), c.buckets, false;
    StillWanted(w, d, s, written, lba, base, at0);
    assert all ==> CachedIn(c.hash, c.buckets, d, lba);
    var at, n;
    at, n, written' := NextChunk(d, s.offset, s.cnt, written, lba, base, at0);
    var chunk := buf[written..written + n];
    Joined(buf, written, written');
    r, view', cached := WriteTurn(c, d, lba, at, chunk, sync, w, before, view, s.offset, buf[..written], s.first);
    if all { StillCached(c.hash, t, c.buckets, d, s); }
    if r.Found? {
      PassedOn(w, d, s, written, lba, base, at0, written');
    } else {
      EndsHere(w, d, s, written, lba, base, at0, r, cached);
      written' := written;
    }
  }

  /** Lines 267-358.  `written` bytes reached the logical contents, whatever is returned. */
  method WriteRange(c: Cache, d: Drive, s: Span, buf: seq<Byte>, sync: bool, w: World, ghost before: Disk)
    returns (ret: int, written: nat, ghost view: Disk, ghost stop: nat)
    requires Shows(c, before) && DriveOn(d, before) && Spans(s, d) && |buf| == s.cnt > 0
    modifies c
    ensures Shows(c, view) && written <= |buf| && Wrote(before, view, d, s.offset, buf[..written])
    ensures Ended(w, d, s, ret, written, stop)
    ensures old(AllCached(c.hash, c.buckets, d, s)) && ret != Full(d, s.offset, s.cnt) ==>
      ret == (if written == 0 then -EINTR else written) && w.signal(d.Key(stop), false)
    ensures sync && written > 0 ==> SyncedBytes(c.disk, view, d, s.offset, s.offset + written)
  {
    view := before;
    ghost var all := AllCached(c.hash, c.buckets, d, s);
    var lba := s.first;
    written := 0;
    ghost var base: nat, at0: nat := Begin(w, d, s);
    while lba < s.last && lba < d.count
      invariant Shows(c, view) && written <= |buf| && Wrote(before, view, d, s.offset, buf[..written])
      invariant all ==> AllCached(c.hash, c.buckets, d, s)
      invariant Under(w, d, s, written, lba, base, at0)
      invariant sync ==> Synced(c.disk, view, d, s.first, lba)
      decreases d.count - lba
    {
      var r, written', view' := WriteStep(c, d, s, lba, buf, written, sync, w, before, view, base, at0);
      if !r.Found? {
        if sync { SyncedRange(w, c.disk, view', d, s, written, lba, base, at0); }
        return Outcome(r, written), written, view', lba;
      }
      lba, written, view := lba + 1, written', view';
      base, at0 := base + d.size, 0;
    }
    EndsFull(w, d, s, written, lba, base, at0);
    if sync { SyncedRange(w, c.disk, view, d, s, written, lba, base, at0); }
    return written, written, view, lba;
  }

  lemma WroteNothing(view: Disk, d: Drive, offset: nat, none: seq<Byte>)
    requires none == []
    ensures Wrote(view, view, d, offset, none)
  {
  }

  lemma PrefixOfPrefix(buf: seq<Byte>, a: nat, b: nat)
    requires b <= a <= |buf|
    ensures buf[..a][..b] == buf[..b]
  {
  }

  /** Lines 265-358: the first `cnt` bytes of `buf`. */
  method WriteDrive(c: Cache, d: Drive, buf: seq<Byte>, cnt: nat, offset: nat, sync: bool, w: World)
    returns (ret: int, written: nat, ghost s: Span, ghost stop: nat)
    requires c.Valid() && DriveOn(d, c.Logical()) && 0 < cnt <= |buf|
    modifies c
    ensures c.Valid() && written <= cnt && Wrote(old(c.Logical()), c.Logical(), d, offset, buf[..written])
    ensures s.offset == offset && s.cnt == cnt && Spans(s, d) && Ended(w, d, s, ret, written, stop)
    ensures AllCalm(w, d, offset, cnt) ==> ret == Full(d, offset, cnt)
    ensures old(AllCached(c.hash, c.buckets, d, s)) ==> ret != -EIO && ret != -ENOMEM
    ensures sync && written > 0 ==> SyncedBytes(c.disk, c.Logical(), d, offset, offset + written)
  {
    var span := SpanOf(d, offset, cnt);
    s := span;
    ghost var before, view := c.Logical(), c.Logical();
    ViewIs(c.hash, c.buckets, c.disk, before);
    ret, written, view, stop := WriteRange(c, d, span, buf[..cnt], sync, w, before);
    PrefixOfPrefix(buf, cnt, written);
    ViewIs(c.hash, c.buckets, c.disk, view);
    if AllCalm(w, d, offset, cnt) { CalmIsFull(w, d, s, ret, written, stop); }
  }

  /** Lines 251-359.  The transfer is complete unless it ended at sector `stop`. */
  method Write(c: Cache, drive: Option<Drive>, buf: seq<Byte>, offset: nat, sync: bool, w: World)
    returns (ret: int, written: nat, ghost s: Span, ghost stop: nat)
    requires c.Valid() && (drive.Some? ==> DriveOn(drive.value, c.Logical()))
    modifies c
    ensures c.Valid() && written <= |buf| && (ret >= 0 ==> ret == written)
    ensures drive.None? || buf == [] ==>
      ret == (if buf == [] then 0 else -ENODEV) && c.Logical() == old(c.Logical())
    ensures drive.Some? ==> Wrote(old(c.Logical()), c.Logical(), drive.value, offset, buf[..written])
    ensures drive.Some? && buf != [] ==>
      s.offset == offset && s.cnt == Min(|buf|, SSIZE_MAX) && Spans(s, drive.value)
    ensures drive.Some? && buf != [] ==> Ended(w, drive.value, s, ret, written, stop)
    ensures drive.Some? && AllCalm(w, drive.value, offset, Min(|buf|, SSIZE_MAX)) ==>
      ret == Min(Min(|buf|, SSIZE_MAX), Max(0, drive.value.count * drive.value.size - offset))
    ensures drive.Some? && buf != [] && old(AllCached(c.hash, c.buckets, drive.value, s)) ==>
      ret != -EIO && ret != -ENOMEM
    ensures drive.Some? && sync && written > 0 ==>
      SyncedBytes(c.disk, c.Logical(), drive.value, offset, offset + written)
  {
    s, stop := Span(0, 0, 0, 0), 0;
    var cnt := if |buf| > SSIZE_MAX then SSIZE_MAX else |buf|;
    if cnt == 0 {
      if drive.Some? { WroteNothing(c.Logical(), drive.value, offset, buf[..0]); }
      return 0, 0, s, stop;
    }
    if drive.None? { return -ENODEV, 0, s, stop; }
    ret, written, s, stop := WriteDrive(c, drive.value, buf, cnt, offset, sync, w);
  }

  lemma StillOn(before: Disk, after: Disk, d: Drive, offset: nat, bytes: seq<Byte>)
    requires DriveOn(d, before) && Wrote(before, after, d, offset, bytes)
    ensures DriveOn(d, after)
  {
    forall lba: nat | lba < d.count ensures d.Key(lba) in after && |after[d.Key(lba)]| == d.size {
      assert SectorWrote(before, after[d.Key(lba)], d, offset, bytes, d.Key(lba));
    }
  }

  lemma ByteBack(before: Disk, after: Disk, d: Drive, offset: nat, bytes: seq<Byte>, i: nat)
    requires DriveOn(d, before) && DriveOn(d, after) && Wrote(before, after, d, offset, bytes)
    requires i < |bytes| && offset + |bytes| <= d.count * d.size
    ensures ByteAt(after, d, offset + i, bytes[i])
  {
    var pos := offset + i;
    var lba, at := pos / d.size, pos % d.size;
    if lba >= d.count { MulMono(d.count, lba, d.size); }
    assert lba * d.size + at == pos;
    assert SectorWrote(before, after[d.Key(lba)], d, offset, bytes, d.Key(lba));
  }

  /** What a completed write put on the drive is what a read of the same range returns. */
  lemma ReadBack(before: Disk, after: Disk, d: Drive, offset: nat, bytes: seq<Byte>)
    requires DriveOn(d, before) && Wrote(before, after, d, offset, bytes) && offset + |bytes| <= d.count * d.size
    ensures DriveOn(d, after) && Holds(after, d, offset, bytes)
  {
    StillOn(before, after, d, offset, bytes);
    forall i | 0 <= i < |bytes| ensures ByteAt(after, d, offset + i, bytes[i]) {
      ByteBack(before, after, d, offset, bytes, i);
    }
  }
}
