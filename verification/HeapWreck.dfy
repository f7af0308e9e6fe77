/** Stores that reach the headers of the list in libc/src/malloc.c, and why no list is left after them. */
module HeapWreck {
  import opened HeapImage

  /** The bytes `s` stored at any address: those that fall outside the heap are not part of it. */
  function Poke(m: seq<Cell>, at: int, s: seq<Cell>): (r: seq<Cell>)
    ensures |r| == |m|
    ensures forall x :: 0 <= x < |m| ==> r[x] == if at <= x < at + |s| then s[x - at] else m[x]
  {
    seq(|m|, x requires 0 <= x < |m| => if at <= x < at + |s| then s[x - at] else m[x])
  }

  function Pointer(to: int): (s: seq<Cell>)
    ensures |s| == 4
    ensures forall k :: 0 <= k < 4 ==> s[k] == Ptr(to, k)
  {
    seq(4, k requires 0 <= k => Ptr(to, k))
  }

  /** The bytes are the headers of no list of chunks. */
  ghost predicate Broken(m: seq<Cell>) {
    forall d :: !Holds(m, d)
  }

  /** Where the list `d` says that chunk `j` lies, the bytes say where the next one lies. */
  lemma NextByte(m: seq<Cell>, d: Chunks, j: nat)
    requires Holds(m, d) && j < |d.at|
    ensures d.at[j] + HDR <= d.End(j) <= |m|
    ensures m[d.at[j]] == Data(MAGIC[0]) && m[d.at[j] + 3] == Flags(d.used[j], j == 0, j == |d.at| - 1)
    ensures m[d.at[j] + 4] == Ptr(if j == 0 then 0 else d.at[j - 1], 0)
    ensures m[d.at[j] + 8] == Ptr(d.End(j), 0)
  {
    var h := d.HeaderOf(j);
    d.Bound(j);
    assert HoldsAt(m, d, j);
    assert PartAt(m, d.at[j], h, 0) && PartAt(m, d.at[j], h, 3);
    assert PartAt(m, d.at[j], h, 4) && PartAt(m, d.at[j], h, 8);
  }

  // ---------- a store from the header of chunk `i` on ----------

  ghost predicate Alike(m: seq<Cell>, m': seq<Cell>, end: nat) {
    |m| == |m'| && forall x :: 0 <= x < end && x < |m| ==> m'[x] == m[x]
  }

  /** The list is read off the bytes from the front: where they agree, so do the lists. */
  lemma {:induction false} SameFront(m: seq<Cell>, m': seq<Cell>, c: Chunks, d: Chunks, i: nat)
    requires Holds(m, c) && Holds(m', d) && i < |c.at| && Alike(m, m', c.at[i])
    ensures i < |d.at| && d.at[i] == c.at[i]
  {
    if i > 0 {
      c.Order(i - 1, i);
      assert c.Fits(i - 1);
      SameFront(m, m', c, d, i - 1);
      NextByte(m, c, i - 1);
      NextByte(m', d, i - 1);
    }
  }

  /** Another byte where the magic has to begin. */
  lemma MagicBreaks(m: seq<Cell>, m': seq<Cell>, c: Chunks, i: nat)
    requires Holds(m, c) && i < |c.at| && Alike(m, m', c.at[i])
    requires c.at[i] < |m| && m'[c.at[i]] != Data(MAGIC[0])
    ensures Broken(m')
  {
    forall d ensures !Holds(m', d) {
      if Holds(m', d) {
        SameFront(m, m', c, d, i);
        NextByte(m', d, i);
      }
    }
  }

  // ---------- a header written over, or just before, the header of chunk `i` ----------

  /** Byte `x` after the header of the rest went to `n`, the pointer to it into the chunk at `a`, and
      once more to `y`.  Of the flags at `a` nothing is said. */
  ghost predicate WreckedAt(m: seq<Cell>, m': seq<Cell>, a: nat, n: int, g: Header, y: int, x: nat)
    requires x < |m| == |m'|
  {
    if y <= x < y + 4 then m'[x] == Ptr(n, x - y)
    else if a + 8 <= x < a + HDR then m'[x] == Ptr(n, x - a - 8)
    else if n <= x < n + HDR then x != a + 3 ==> m'[x] == Part(g, x - n)
    else x != a + 3 ==> m'[x] == m[x]
  }

  ghost predicate Wrecked(m: seq<Cell>, m': seq<Cell>, a: nat, n: int, g: Header, y: int) {
    && |m| == |m'| && !g.first && g.prev == a && a - HDR <= n < a + HDR && n + HDR <= |m| && (n - a) % 4 == 0
    && forall x :: 0 <= x < |m| ==> WreckedAt(m, m', a, n, g, y, x)
  }

  /** If the next pointer of chunk `j` was overwritten, a chunk would have to lie at `n`, but the header
      there names another predecessor. */
  lemma NoChunkThere(m: seq<Cell>, m': seq<Cell>, c: Chunks, d: Chunks, i: nat, n: int, g: Header, y: int, j: nat)
    requires Holds(m, c) && Holds(m', d) && i < |c.at| && Wrecked(m, m', c.at[i], n, g, y)
    requires j < i && j < |d.at| && d.at[j] == c.at[j] && y == c.at[j] + 8
    ensures d.End(j) != n
  {
    c.Order(j, i);
    NextByte(m', d, j);
    if d.End(j) == n {
      assert WreckedAt(m, m', c.at[i], n, g, y, n + 4);
      NextByte(m', d, j + 1);
    }
  }

  /** The header of chunk `j` itself was written over. */
  lemma NotOver(m: seq<Cell>, m': seq<Cell>, c: Chunks, d: Chunks, i: nat, n: int, g: Header, y: int, j: nat)
    requires Holds(m, c) && Holds(m', d) && i < |c.at| && Wrecked(m, m', c.at[i], n, g, y)
    requires j < i && j < |d.at| && d.at[j] == c.at[j]
    ensures c.at[j] + HDR <= n
  {
    var a, b := c.at[i], c.at[j];
    c.Order(j, i);
    c.Bound(i);
    assert c.Fits(i) && c.Fits(j);
    assert n == b || n == b + 4 || n == b + 8 || b + HDR <= n;
    assert WreckedAt(m, m', a, n, g, y, b + 3) && WreckedAt(m, m', a, n, g, y, b + 4);
    assert WreckedAt(m, m', a, n, g, y, b + 8);
    NextByte(m', d, j);
    if j > 0 { assert d.Fits(j - 1); }
  }

  lemma {:induction false} Followed(m: seq<Cell>, m': seq<Cell>, c: Chunks, d: Chunks, i: nat, n: int, g: Header,
    y: int, j: nat)
    requires Holds(m, c) && Holds(m', d) && j <= i < |c.at| && Wrecked(m, m', c.at[i], n, g, y)
    ensures j < |d.at| && d.at[j] == c.at[j]
  {
    if j > 0 {
      Followed(m, m', c, d, i, n, g, y, j - 1);
      NotOver(m, m', c, d, i, n, g, y, j - 1);
      if y == c.at[j - 1] + 8 { NoChunkThere(m, m', c, d, i, n, g, y, j - 1); }
      c.Order(j - 1, i);
      c.Bound(j);
      NextByte(m, c, j - 1);
      NextByte(m', d, j - 1);
      assert WreckedAt(m, m', c.at[i], n, g, y, c.at[j - 1] + 8);
    }
  }

  /** No list is left: it would lead to chunk `i`, whose next pointer leads back. */
  lemma WreckBreaks(m: seq<Cell>, m': seq<Cell>, c: Chunks, i: nat, n: int, g: Header, y: int)
    requires Holds(m, c) && i < |c.at| && Wrecked(m, m', c.at[i], n, g, y)
    ensures Broken(m')
  {
    c.Bound(i);
    assert WreckedAt(m, m', c.at[i], n, g, y, c.at[i] + 8);
    forall d ensures !Holds(m', d) {
      if Holds(m', d) {
        Followed(m, m', c, d, i, n, g, y, i);
        NextByte(m', d, i);
      }
    }
  }
}
