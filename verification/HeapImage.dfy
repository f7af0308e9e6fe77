/** The heap of libc/src/malloc.c as bytes: chunk headers lie in the heap itself, and the list of
    chunks is what the bytes say. */
module HeapImage {
  import opened Numbers
  import opened Sequences

  const HDR: nat := 12

  /** struct malloc_heap_header. */
  datatype Header = Header(used: bool, first: bool, last: bool, prev: int, next: int)

  /** MALLOC_MAGIC. */
  const MAGIC: seq<Byte> := [0x4D, 0x41, 0x4C]

  /** A byte of memory: data, the flags of a header, or byte `k` of a pointer.  A header is the magic and nine
      such bytes, and overwriting one of them with another destroys it. */
  datatype Cell =
    | Data(v: Byte)
    | Flags(used: bool, first: bool, last: bool)
    | Ptr(to: int, k: nat)

  /** Byte `k` of a header. */
  function Part(h: Header, k: nat): Cell {
    if k < 3 then Data(MAGIC[k])
    else if k == 3 then Flags(h.used, h.first, h.last)
    else if k < 8 then Ptr(h.prev, k - 4)
    else Ptr(h.next, k - 8)
  }

  function Encode(h: Header): (s: seq<Cell>)
    ensures |s| == HDR
  {
    seq(HDR, k requires 0 <= k => Part(h, k))
  }

  ghost predicate PartAt(m: seq<Cell>, a: nat, h: Header, k: nat) { a + k < |m| && m[a + k] == Part(h, k) }

  /** The twelve bytes at `a` are those of the header `h`. */
  ghost predicate HeaderAt(m: seq<Cell>, a: nat, h: Header) {
    a + HDR <= |m| && forall k :: 0 <= k < HDR ==> PartAt(m, a, h, k)
  }

  // ---------- reading and writing at an offset ----------

  lemma PutApart(m: seq<Cell>, at: nat, s: seq<Cell>, lo: nat, hi: nat)
    requires at + |s| <= |m| && lo <= hi <= |m| && (hi <= at || at + |s| <= lo)
    ensures Put(m, at, s)[lo..hi] == m[lo..hi]
  {
  }

  lemma PutSlice(m: seq<Cell>, lo: nat, hi: nat, at: nat, s: seq<Cell>)
    requires lo <= hi <= |m| && lo + at + |s| <= hi
    ensures Put(m, lo + at, s)[lo..hi] == Put(m[lo..hi], at, s)
  {
  }

  lemma PutHeader(m: seq<Cell>, a: nat, h: Header)
    requires a + HDR <= |m|
    ensures HeaderAt(Put(m, a, Encode(h)), a, h)
  {
  }

  /** The header bytes at `a` are the same in both images. */
  ghost predicate SameHeader(m: seq<Cell>, m': seq<Cell>, a: nat) {
    a + HDR <= |m| == |m'| && m'[a..a + HDR] == m[a..a + HDR]
  }

  lemma KeepHeader(m: seq<Cell>, m': seq<Cell>, a: nat, h: Header)
    requires HeaderAt(m, a, h) && SameHeader(m, m', a)
    ensures HeaderAt(m', a, h)
  {
    forall k | 0 <= k < HDR ensures PartAt(m', a, h, k) {
      assert PartAt(m, a, h, k) && m'[a..a + HDR][k] == m[a..a + HDR][k];
    }
  }

  // ---------- the list of chunks ----------

  /** The chunks in address order: where each header lies, and whether the chunk is in use.  Addresses
      count from the start of the heap. */
  datatype Chunks = Chunks(at: seq<nat>, used: seq<bool>, size: nat) {
    /** Where chunk `i` ends. */
    function End(i: nat): nat
      requires i < |at|
    {
      if i + 1 < |at| then at[i + 1] else size
    }

    predicate Fits(i: nat)
      requires i < |at|
    {
      at[i] % 4 == 0 && at[i] + HDR <= End(i)
    }

    /** The chunks tile the heap, aligned, each with room for its header; the last one is free. */
    ghost predicate Tile() {
      && |at| == |used| > 0 && at[0] == 0 && size < WORD && size % 4 == 0
      && (forall i :: 0 <= i < |at| ==> Fits(i))
      && !used[|at| - 1]
    }

    function HeaderOf(i: nat): Header
      requires i < |at| == |used|
    {
      Header(used[i], i == 0, i == |at| - 1, if i == 0 then at[0] else at[i - 1], End(i))
    }

    lemma {:induction false} Order(i: nat, j: nat)
      requires Tile() && i < j < |at|
      ensures End(i) <= at[j] && at[j] + HDR <= size
      decreases j - i
    {
      assert Fits(i + 1);
      if i + 1 < j { Order(i + 1, j); } else { Bound(j); }
    }

    lemma {:induction false} Bound(j: nat)
      requires Tile() && j < |at|
      ensures at[j] + HDR <= End(j) <= size
      decreases |at| - j
    {
      assert Fits(j);
      if j + 1 < |at| { Bound(j + 1); }
    }
  }

  /** The bytes hold the header of every chunk at its place. */
  ghost predicate Holds(m: seq<Cell>, c: Chunks) {
    c.Tile() && |m| == c.size && forall i :: 0 <= i < |c.at| ==> HoldsAt(m, c, i)
  }

  ghost predicate HoldsAt(m: seq<Cell>, c: Chunks, i: nat)
    requires i < |c.at| == |c.used|
  {
    HeaderAt(m, c.at[i], c.HeaderOf(i))
  }

  // ---------- splitting and merging ----------

  /** Chunk `i` is taken for `r` bytes; the rest becomes a new free chunk. */
  function Split(c: Chunks, i: nat, r: nat): Chunks
    requires i < |c.at| == |c.used|
  {
    c.(at := c.at[..i + 1] + [c.at[i] + HDR + r] + c.at[i + 1..], used := c.used[..i] + [true, false] + c.used[i + 1..])
  }

  /** Chunk `i` swallows the one behind it. */
  function Merge(c: Chunks, i: nat): Chunks
    requires i + 1 < |c.at| == |c.used|
  {
    c.(at := c.at[..i + 1] + c.at[i + 2..], used := c.used[..i + 1] + c.used[i + 2..])
  }

  lemma SplitTile(c: Chunks, i: nat, r: nat)
    requires c.Tile() && i < |c.at| && !c.used[i] && r % 4 == 0 && c.at[i] + r + 2 * HDR <= c.End(i)
    ensures Split(c, i, r).Tile()
  {
    var d := Split(c, i, r);
    forall k | 0 <= k < |d.at| ensures d.Fits(k) { SplitFits(c, i, r, k); }
    if i + 1 < |c.at| { SplitIndex(c, i, r, |c.at| - 1); }
  }

  lemma SplitFits(c: Chunks, i: nat, r: nat, k: nat)
    requires c.Tile() && i < |c.at| && r % 4 == 0 && c.at[i] + r + 2 * HDR <= c.End(i) && k <= |c.at|
    ensures Split(c, i, r).Fits(k)
  {
    if k == i || k == i + 1 {
      assert c.Fits(i);
      Aligned(c.at[i], r);
    } else {
      var o := if k < i then k else k - 1;
      assert c.Fits(o);
      SplitIndex(c, i, r, o);
    }
  }

  lemma Aligned(a: nat, r: nat)
    requires a % 4 == 0 && r % 4 == 0
    ensures (a + HDR + r) % 4 == 0
  {
  }

  lemma SplitHeaders(c: Chunks, i: nat, r: nat, k: nat)
    requires c.Tile() && i < |c.at| && k < |c.at|
    ensures Split(c, i, r).at[if k <= i then k else k + 1] == c.at[k] && Split(c, i, r).at[i + 1] == c.at[i] + HDR + r
    ensures k < i ==> Split(c, i, r).HeaderOf(k) == c.HeaderOf(k)
    ensures k > i + 1 ==> Split(c, i, r).HeaderOf(k + 1) == c.HeaderOf(k)
    ensures k == i + 1 ==> Split(c, i, r).HeaderOf(k + 1) == c.HeaderOf(k).(prev := c.at[i] + HDR + r)
  {
  }

  lemma MergeTile(c: Chunks, i: nat)
    requires c.Tile() && i + 1 < |c.at| && !c.used[i] && !c.used[i + 1]
    ensures Merge(c, i).Tile()
  {
    var d := Merge(c, i);
    forall k | 0 <= k < |d.at| ensures d.Fits(k) {
      assert k < i ==> d.at[k + 1] == c.at[k + 1];
      assert k > i ==> d.at[k] == c.at[k + 1];
      assert c.Fits(if k <= i then k else k + 1) && c.Fits(i + 1);
    }
  }

  lemma MergeHeaders(c: Chunks, i: nat, k: nat)
    requires c.Tile() && i + 1 < |c.at| && k < |c.at|
    ensures k < i ==> Merge(c, i).HeaderOf(k) == c.HeaderOf(k)
    ensures k > i + 2 ==> Merge(c, i).HeaderOf(k - 1) == c.HeaderOf(k)
    ensures k == i + 2 ==> Merge(c, i).HeaderOf(k - 1) == c.HeaderOf(k).(prev := c.at[i])
  {
  }

  ghost predicate SameAt(m: seq<Cell>, m': seq<Cell>, c: Chunks, k: nat)
    requires k < |c.at|
  {
    SameHeader(m, m', c.at[k])
  }

  /** The three headers malloc writes, and no other. */
  ghost predicate SplitImage(m: seq<Cell>, m': seq<Cell>, c: Chunks, i: nat, r: nat)
    requires i < |c.at| == |c.used|
  {
    && |m'| == |m|
    && HeaderAt(m', c.at[i], Split(c, i, r).HeaderOf(i))
    && HeaderAt(m', c.at[i] + HDR + r, Split(c, i, r).HeaderOf(i + 1))
    && (i + 1 < |c.at| ==> HeaderAt(m', c.at[i + 1], c.HeaderOf(i + 1).(prev := c.at[i] + HDR + r)))
    && forall k :: 0 <= k < |c.at| && k != i && k != i + 1 ==> SameAt(m, m', c, k)
  }

  lemma SplitHolds(m: seq<Cell>, m': seq<Cell>, c: Chunks, i: nat, r: nat)
    requires Holds(m, c) && i < |c.at| && !c.used[i] && r % 4 == 0 && c.at[i] + r + 2 * HDR <= c.End(i)
    requires SplitImage(m, m', c, i, r)
    ensures Holds(m', Split(c, i, r))
  {
    var d := Split(c, i, r);
    SplitTile(c, i, r);
    forall k | 0 <= k < |d.at| ensures HoldsAt(m', d, k) { SplitHoldsAt(m, m', c, i, r, k); }
  }

  lemma SplitHoldsAt(m: seq<Cell>, m': seq<Cell>, c: Chunks, i: nat, r: nat, k: nat)
    requires Holds(m, c) && i < |c.at| && SplitImage(m, m', c, i, r) && k <= |c.at|
    ensures HoldsAt(m', Split(c, i, r), k)
  {
    var o := if k <= i then k else k - 1;
    SplitHeaders(c, i, r, o);
    if o != i && o != i + 1 {
      assert HoldsAt(m, c, o) && SameAt(m, m', c, o);
      KeepHeader(m, m', c.at[o], c.HeaderOf(o));
    }
  }

  /** The two headers a merge writes, and no other. */
  ghost predicate MergeImage(m: seq<Cell>, m': seq<Cell>, c: Chunks, i: nat)
    requires i + 1 < |c.at| == |c.used|
  {
    && |m'| == |m|
    && HeaderAt(m', c.at[i], Merge(c, i).HeaderOf(i))
    && (i + 2 < |c.at| ==> HeaderAt(m', c.at[i + 2], c.HeaderOf(i + 2).(prev := c.at[i])))
    && forall k :: 0 <= k < |c.at| && k != i && k != i + 1 && k != i + 2 ==> SameAt(m, m', c, k)
  }

  lemma MergeHolds(m: seq<Cell>, m': seq<Cell>, c: Chunks, i: nat)
    requires Holds(m, c) && i + 1 < |c.at| && !c.used[i] && !c.used[i + 1] && MergeImage(m, m', c, i)
    ensures Holds(m', Merge(c, i))
  {
    var d := Merge(c, i);
    MergeTile(c, i);
    forall k | 0 <= k < |d.at| ensures HoldsAt(m', d, k) {
      if k != i {
        var o := if k < i then k else k + 1;
        MergeHeaders(c, i, o);
        assert HoldsAt(m, c, o) && (o != i + 2 ==> SameAt(m, m', c, o));
        if o != i + 2 { KeepHeader(m, m', c.at[o], c.HeaderOf(o)); }
      }
    }
  }

  function Freed(c: Chunks, i: nat): Chunks
    requires i < |c.used|
  {
    c.(used := c.used[i := false])
  }

  lemma FreeHolds(m: seq<Cell>, m': seq<Cell>, c: Chunks, i: nat)
    requires Holds(m, c) && i < |c.at| && |m'| == |m| && HeaderAt(m', c.at[i], c.HeaderOf(i).(used := false))
    requires forall k :: 0 <= k < |c.at| && k != i ==> SameAt(m, m', c, k)
    ensures Holds(m', Freed(c, i))
  {
    var d := Freed(c, i);
    forall k | 0 <= k < |d.at| ensures d.Fits(k) { assert c.Fits(k); }
    forall k | 0 <= k < |d.at| ensures HoldsAt(m', d, k) {
      assert HoldsAt(m, c, k) && (k != i ==> SameAt(m, m', c, k));
      if k != i { KeepHeader(m, m', c.at[k], c.HeaderOf(k)); }
    }
  }

  // ---------- the blocks in use ----------

  /** Chunk `j`, if in use, has the same contents in both images. */
  ghost predicate KeptAt(m: seq<Cell>, m': seq<Cell>, c: Chunks, j: nat)
    requires j < |c.at| == |c.used|
  {
    c.used[j] ==> c.at[j] + HDR <= c.End(j) <= |m| == |m'| && m'[c.at[j] + HDR..c.End(j)] == m[c.at[j] + HDR..c.End(j)]
  }

  /** A write of header `k` leaves the other headers and all contents alone. */
  lemma PutAtChunk(m: seq<Cell>, c: Chunks, k: nat, s: seq<Cell>, j: nat)
    requires c.Tile() && |m| == c.size && k < |c.at| && j < |c.at| && |s| == HDR && c.at[k] + HDR <= |m|
    ensures j != k ==> SameAt(m, Put(m, c.at[k], s), c, j)
    ensures KeptAt(m, Put(m, c.at[k], s), c, j)
  {
    c.Bound(j);
    if j < k { c.Order(j, k); }
    if k < j { c.Order(k, j); }
    assert c.Fits(j) && c.Fits(k);
    if j != k { PutApart(m, c.at[k], s, c.at[j], c.at[j] + HDR); }
    PutApart(m, c.at[k], s, c.at[j] + HDR, c.End(j));
  }

  /** So does a write inside a free chunk, behind its header. */
  lemma PutInside(m: seq<Cell>, c: Chunks, i: nat, a: nat, s: seq<Cell>, j: nat)
    requires c.Tile() && |m| == c.size && i < |c.at| && j < |c.at| && !c.used[i]
    requires c.at[i] + HDR <= a && a + |s| <= c.End(i) <= |m|
    ensures SameAt(m, Put(m, a, s), c, j) && KeptAt(m, Put(m, a, s), c, j)
  {
    c.Bound(j);
    if j < i { c.Order(j, i); }
    if i < j { c.Order(i, j); }
    assert c.Fits(j);
    PutApart(m, a, s, c.at[j], c.at[j] + HDR);
    if j != i { PutApart(m, a, s, c.at[j] + HDR, c.End(j)); }
  }

  /** A block in use, at address `q` with contents `s`. */
  ghost predicate IsBlock(m: seq<Cell>, c: Chunks, q: nat, s: seq<Cell>) {
    exists i :: 0 <= i < |c.at| && BlockAt(m, c, i, q, s)
  }

  ghost predicate BlockAt(m: seq<Cell>, c: Chunks, i: nat, q: nat, s: seq<Cell>)
    requires i < |c.at|
  {
    |c.used| == |c.at| && c.used[i] && q == c.at[i] + HDR <= c.End(i) <= |m| && s == m[q..c.End(i)]
  }

  lemma SplitIndex(c: Chunks, i: nat, r: nat, o: nat)
    requires i < |c.at| == |c.used| && o < |c.at| && o != i
    ensures var d, k := Split(c, i, r), if o < i then o else o + 1;
      d.at[k] == c.at[o] && d.used[k] == c.used[o] && d.End(k) == c.End(o)
  {
  }

  lemma SplitBlockAt(m: seq<Cell>, m': seq<Cell>, c: Chunks, i: nat, r: nat, o: nat, q: nat, s: seq<Cell>)
    requires |m| == |m'| && i < |c.at| == |c.used| && o < |c.at| && o != i && KeptAt(m, m', c, o)
    ensures BlockAt(m', Split(c, i, r), if o < i then o else o + 1, q, s) <==> BlockAt(m, c, o, q, s)
  {
    SplitIndex(c, i, r, o);
  }

  lemma SplitBlocks(m: seq<Cell>, m': seq<Cell>, c: Chunks, i: nat, r: nat, q: nat, s: seq<Cell>)
    requires c.Tile() && |m| == |m'| == c.size && i < |c.at| && !c.used[i] && c.at[i] + r + 2 * HDR <= c.End(i)
    requires forall j :: 0 <= j < |c.at| ==> KeptAt(m, m', c, j)
    ensures IsBlock(m', Split(c, i, r), q, s) <==> IsBlock(m, c, q, s) || BlockAt(m', Split(c, i, r), i, q, s)
  {
    var d := Split(c, i, r);
    if IsBlock(m', d, q, s) {
      var k :| 0 <= k < |d.at| && BlockAt(m', d, k, q, s);
      assert k != i + 1;
      if k != i { SplitBlockAt(m, m', c, i, r, if k < i then k else k - 1, q, s); }
    }
    if IsBlock(m, c, q, s) {
      var o :| 0 <= o < |c.at| && BlockAt(m, c, o, q, s);
      SplitBlockAt(m, m', c, i, r, o, q, s);
    }
  }

  lemma MergeIndex(c: Chunks, i: nat, o: nat)
    requires i + 1 < |c.at| == |c.used| && o < |c.at| && o != i && o != i + 1
    ensures var d, k := Merge(c, i), if o < i then o else o - 1;
      d.at[k] == c.at[o] && d.used[k] == c.used[o] && d.End(k) == c.End(o)
  {
  }

  lemma MergeBlockAt(m: seq<Cell>, m': seq<Cell>, c: Chunks, i: nat, o: nat, q: nat, s: seq<Cell>)
    requires |m| == |m'| && i + 1 < |c.at| == |c.used| && o < |c.at| && o != i && o != i + 1 && KeptAt(m, m', c, o)
    ensures BlockAt(m', Merge(c, i), if o < i then o else o - 1, q, s) <==> BlockAt(m, c, o, q, s)
  {
    MergeIndex(c, i, o);
  }

  lemma MergeBlocks(m: seq<Cell>, m': seq<Cell>, c: Chunks, i: nat, q: nat, s: seq<Cell>)
    requires c.Tile() && |m| == |m'| == c.size && i + 1 < |c.at| && !c.used[i] && !c.used[i + 1]
    requires forall j :: 0 <= j < |c.at| ==> KeptAt(m, m', c, j)
    ensures IsBlock(m', Merge(c, i), q, s) <==> IsBlock(m, c, q, s)
  {
    var d := Merge(c, i);
    if IsBlock(m', d, q, s) {
      var k :| 0 <= k < |d.at| && BlockAt(m', d, k, q, s);
      assert k != i;
      MergeBlockAt(m, m', c, i, if k < i then k else k + 1, q, s);
    }
    if IsBlock(m, c, q, s) {
      var o :| 0 <= o < |c.at| && BlockAt(m, c, o, q, s);
      MergeBlockAt(m, m', c, i, o, q, s);
    }
  }

  lemma FreeBlocks(m: seq<Cell>, m': seq<Cell>, c: Chunks, i: nat, q: nat, s: seq<Cell>)
    requires c.Tile() && |m| == |m'| == c.size && i < |c.at|
    requires forall j :: 0 <= j < |c.at| ==> KeptAt(m, m', c, j)
    ensures IsBlock(m', Freed(c, i), q, s) <==> IsBlock(m, c, q, s) && q != c.at[i] + HDR
  {
    var d := Freed(c, i);
    if IsBlock(m', d, q, s) {
      var k :| 0 <= k < |d.at| && BlockAt(m', d, k, q, s);
      if k < i { c.Order(k, i); }
      if i < k { c.Order(i, k); }
      assert c.Fits(k) && c.Fits(i) && KeptAt(m, m', c, k) && BlockAt(m, c, k, q, s);
    }
    if IsBlock(m, c, q, s) && q != c.at[i] + HDR {
      var k :| 0 <= k < |c.at| && BlockAt(m, c, k, q, s);
      assert KeptAt(m, m', c, k) && BlockAt(m', d, k, q, s);
    }
  }
}
