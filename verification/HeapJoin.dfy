/** What freeing does to the list of chunks (libc/src/malloc.c:94-154): which free neighbours are joined. */
module HeapJoin {
  import opened HeapImage

  /** Free chunk `j` has all bytes of [from, to). */
  ghost predicate FreeOver(c: Chunks, j: nat, from: nat, to: nat) {
    j < |c.at| == |c.used| && !c.used[j] && c.at[j] <= from && to <= c.End(j)
  }

  /** One free chunk has all bytes of [from, to). */
  ghost predicate FreeStretch(c: Chunks, from: nat, to: nat) {
    exists j: nat :: FreeOver(c, j, from, to)
  }

  /** The chunk behind chunk `i` is free and the last one, where line 138 leaves. */
  predicate StopsAtLast(c: Chunks, i: nat)
    requires i + 1 < |c.at| == |c.used|
  {
    !c.used[i + 1] && i + 2 == |c.at|
  }

  /** Lines 116-150 for a chunk `i` that has just become free. */
  function Coalesced(c: Chunks, i: nat): Chunks
    requires i + 1 < |c.at| == |c.used|
  {
    var d := if c.used[i + 1] then c else Merge(c, i);
    if i == 0 || c.used[i - 1] || StopsAtLast(c, i) then d else Merge(d, i - 1)
  }

  // ---------- freed memory is joined ----------

  /** A merge loses no free stretch, and joins two. */
  lemma MergeStretch(c: Chunks, i: nat, j: nat, from: nat, to: nat)
    requires c.Tile() && i + 1 < |c.at| && !c.used[i] && !c.used[i + 1] && FreeOver(c, j, from, to)
    ensures FreeOver(Merge(c, i), if j <= i then j else j - 1, from, to)
  {
    assert c.Fits(i) && c.Fits(i + 1) && c.Fits(j);
    assert j == i ==> c.End(i) <= c.End(i + 1);
  }

  lemma MergeJoins(c: Chunks, i: nat)
    requires c.Tile() && i + 1 < |c.at| && !c.used[i] && !c.used[i + 1]
    ensures Merge(c, i).at[i] == c.at[i] && Merge(c, i).End(i) == c.End(i + 1)
    ensures FreeOver(Merge(c, i), i, c.at[i], c.End(i + 1))
  {
  }

  /** Every stretch that was free still is. */
  lemma NothingLost(c: Chunks, i: nat, from: nat, to: nat)
    requires c.Tile() && i + 1 < |c.at| && !c.used[i] && FreeStretch(c, from, to)
    ensures FreeStretch(Coalesced(c, i), from, to)
  {
    var j: nat :| FreeOver(c, j, from, to);
    var d := c;
    if !c.used[i + 1] {
      MergeStretch(c, i, j, from, to);
      MergeTile(c, i);
      d, j := Merge(c, i), if j <= i then j else j - 1;
    }
    assert FreeOver(d, j, from, to);
    if Coalesced(c, i) != d { MergeStretch(d, i - 1, j, from, to); }
  }

  /** Where the freed memory of chunk `i` ends, its free successor included. */
  function Reach(c: Chunks, i: nat): nat
    requires i + 1 < |c.at| == |c.used|
  {
    if c.used[i + 1] then c.End(i) else c.End(i + 1)
  }

  /** The chunk is joined with a free successor, and with a free predecessor unless the successor is free and the
      last chunk. */
  lemma Joined(c: Chunks, i: nat)
    requires c.Tile() && i + 1 < |c.at| && !c.used[i]
    ensures FreeStretch(Coalesced(c, i), c.at[i], Reach(c, i))
    ensures i > 0 && !c.used[i - 1] && !StopsAtLast(c, i) ==> FreeStretch(Coalesced(c, i), c.at[i - 1], Reach(c, i))
  {
    var d := if c.used[i + 1] then c else Merge(c, i);
    if !c.used[i + 1] {
      MergeJoins(c, i);
      MergeTile(c, i);
    }
    assert d.at[i] == c.at[i] && d.End(i) == Reach(c, i) && FreeOver(d, i, c.at[i], Reach(c, i));
    if i > 0 && !c.used[i - 1] && !StopsAtLast(c, i) {
      assert d.at[i - 1] == c.at[i - 1];
      assert d.Fits(i - 1);
      MergeJoins(d, i - 1);
      assert FreeOver(Coalesced(c, i), i - 1, c.at[i - 1], Reach(c, i));
      assert FreeOver(Coalesced(c, i), i - 1, c.at[i], Reach(c, i));
    } else {
      assert Coalesced(c, i) == d;
    }
  }

  /** The header of the freed chunk stays in the list exactly if the chunk before it is in use or there is none, or
      if the chunk behind it is free and the last one. */
  lemma HeaderStays(c: Chunks, i: nat)
    requires c.Tile() && i + 1 < |c.at| && !c.used[i]
    ensures c.at[i] in Coalesced(c, i).at <==> i == 0 || c.used[i - 1] || StopsAtLast(c, i)
  {
    var d := if c.used[i + 1] then c else Merge(c, i);
    if !c.used[i + 1] { MergeTile(c, i); }
    assert d.at[i] == c.at[i];
    var e := Coalesced(c, i);
    if i > 0 && !c.used[i - 1] && !StopsAtLast(c, i) {
      forall k | 0 <= k < |e.at| ensures e.at[k] != c.at[i] {
        var o := if k < i then k else k + 1;
        assert e.at[k] == d.at[o];
        if o < i { d.Order(o, i); } else { d.Order(i, o); }
        assert d.Fits(o) && d.Fits(i);
      }
    } else {
      assert e == d && e.at[i] == c.at[i];
    }
  }

  // ---------- no two free chunks side by side ----------

  ghost predicate NoTwoFree(c: Chunks) {
    |c.at| == |c.used| && forall k :: 0 <= k && k + 1 < |c.used| ==> c.used[k] || c.used[k + 1]
  }

  /** malloc keeps it. */
  lemma SplitNoTwoFree(c: Chunks, i: nat, r: nat)
    requires NoTwoFree(c) && i < |c.at| && !c.used[i]
    ensures NoTwoFree(Split(c, i, r))
  {
    var d := Split(c, i, r);
    forall k | 0 <= k && k + 1 < |d.used| ensures d.used[k] || d.used[k + 1] {
      if k < i {
        assert d.used[k] == c.used[k] && (k + 1 < i ==> d.used[k + 1] == c.used[k + 1]);
        assert c.used[k] || c.used[k + 1];
      } else if k == i + 1 {
        assert d.used[k + 1] == c.used[i + 1] && (c.used[i] || c.used[i + 1]);
      } else if k > i + 1 {
        assert d.used[k] == c.used[k - 1] && d.used[k + 1] == c.used[k];
        assert c.used[k - 1] || c.used[k - 1 + 1];
      }
    }
  }

  /** free keeps it except where line 138 leaves with a free chunk in front. */
  lemma CoalescedNoTwoFree(c: Chunks, i: nat)
    requires c.Tile() && NoTwoFree(c) && i + 1 < |c.at| && c.used[i]
    ensures NoTwoFree(Coalesced(Freed(c, i), i)) <==> i == 0 || c.used[i - 1] || !StopsAtLast(c, i)
  {
    var f := Freed(c, i);
    var e := Coalesced(f, i);
    var d := if f.used[i + 1] then f else Merge(f, i);
    assert forall k :: 0 <= k < |c.used| && k != i ==> f.used[k] == c.used[k];
    if i > 0 && !c.used[i - 1] && StopsAtLast(c, i) {
      assert e == d && !e.used[i - 1] && !e.used[i - 1 + 1];
    } else {
      forall k | 0 <= k && k + 1 < |e.used| ensures e.used[k] || e.used[k + 1] { StillApart(c, i, k); }
    }
  }

  lemma StillApart(c: Chunks, i: nat, k: nat)
    requires c.Tile() && NoTwoFree(c) && i + 1 < |c.at| && c.used[i]
    requires i == 0 || c.used[i - 1] || !StopsAtLast(c, i)
    requires k + 1 < |Coalesced(Freed(c, i), i).used|
    ensures var e := Coalesced(Freed(c, i), i); e.used[k] || e.used[k + 1]
  {
    var f := Freed(c, i);
    var d := if f.used[i + 1] then f else Merge(f, i);
    var e := Coalesced(f, i);
    var cut := if f.used[i + 1] then 0 else 1;
    var cut' := if e == d then 0 else 1;
    // Chunk k of the result is the old chunk k below the merge, and the old chunk k + cut + cut' above it.
    var lo := if k + cut' < i then k else k + cut + cut';
    assert k + cut' < i ==> c.used[k] || c.used[k + 1];
    assert k + cut' > i && lo + 1 < |c.used| ==> c.used[lo] || c.used[lo + 1];
  }

  /** What becomes of the free memory when chunk `i` of `c` is freed. */
  ghost predicate Rejoined(c: Chunks, e: Chunks, i: nat)
    requires i + 1 < |c.at| == |c.used|
  {
    var lone := i == 0 || c.used[i - 1] || (!c.used[i + 1] && i + 2 == |c.at|);
    var end := if c.used[i + 1] then c.End(i) else c.End(i + 1);
    && FreeStretch(e, if lone then c.at[i] else c.at[i - 1], end)
    && (c.at[i] in e.at <==> lone)
    && (NoTwoFree(c) ==> (NoTwoFree(e) <==> i == 0 || c.used[i - 1] || c.used[i + 1] || i + 2 < |c.at|))
    && forall from: nat, to: nat :: FreeStretch(c, from, to) ==> FreeStretch(e, from, to)
  }

  lemma FreeJoins(c: Chunks, i: nat)
    requires c.Tile() && i + 1 < |c.at| && c.used[i]
    ensures Rejoined(c, Coalesced(Freed(c, i), i), i)
  {
    var f := Freed(c, i);
    assert forall k :: 0 <= k < |c.at| ==> c.Fits(k) ==> f.Fits(k);
    Joined(f, i);
    HeaderStays(f, i);
    if NoTwoFree(c) { CoalescedNoTwoFree(c, i); }
    forall from: nat, to: nat | FreeStretch(c, from, to) ensures FreeStretch(Coalesced(f, i), from, to) {
      var j: nat :| FreeOver(c, j, from, to);
      assert FreeOver(f, j, from, to);
      NothingLost(f, i, from, to);
    }
  }

  /** A request that fits into a free stretch finds room. */
  lemma StretchRoom(c: Chunks, from: nat, to: nat, need: nat)
    requires FreeStretch(c, from, to) && to - from >= need
    ensures exists j: nat :: j < |c.at| == |c.used| && !c.used[j] && c.End(j) - c.at[j] >= need
  {
    var j: nat :| FreeOver(c, j, from, to);
  }
}
