/** malloc, free and realloc of libc/src/malloc.c, under their mutex one at a time. */
module Malloc {
  import opened HeapImage
  import opened HeapJoin
  import opened HeapWreck
  import opened Numbers
  import opened Sequences

  const ALIGN: nat := 4
  const OOM_INCREASE: nat := 0x10000
  const START_HEAP_SIZE: nat := 0x800_0000
  /** PROGRAM_MAX_HEAP_SIZE of src/include/kernel_sched.h. */
  const MAX_HEAP_SIZE: nat := 0x4000_0000

  /** Line 47, in 32 bits. */
  function Rounded(size: nat): nat {
    (if size % ALIGN != 0 then size + ALIGN - size % ALIGN else size) % WORD
  }

  /** The sum of line 52: the request and two headers, in 32 bits. */
  function Need(size: nat): nat { (Rounded(size) + 2 * HDR) % WORD }

  /** The sum does not wrap around. */
  predicate Sane(size: nat) { size < WORD && Rounded(size) + 2 * HDR < WORD }

  /** Only the last three sizes round to less than was asked for, and only those between 2^32 - 27 and
      2^32 - 4 wrap at line 52. */
  lemma WrapAround(size: nat)
    requires size < WORD
    ensures Rounded(size) < WORD && Rounded(size) % ALIGN == 0
    ensures if size <= WORD - ALIGN then size <= Rounded(size) < size + 4 else Rounded(size) == 0
    ensures Sane(size) <==> size <= WORD - 28 || size > WORD - ALIGN
    ensures Need(size) == Rounded(size) + 24 - (if Sane(size) then 0 else WORD)
  {
    var up := if size % ALIGN != 0 then size + ALIGN - size % ALIGN else size;
    assert up % ALIGN == 0 && size <= up < size + ALIGN;
    assert up < WORD ==> Rounded(size) == up;
    assert up == WORD || up <= WORD - ALIGN;
  }

  /** Chunk `i` is free and has `need` bytes. */
  predicate Room(c: Chunks, i: nat, need: nat)
    requires i < |c.at| == |c.used|
  {
    !c.used[i] && c.End(i) - c.at[i] >= need
  }

  ghost predicate NoRoom(c: Chunks, need: nat) {
    |c.at| == |c.used| && forall i :: 0 <= i < |c.at| ==> !Room(c, i, need)
  }

  /** malloc keeps the heap: the request does not wrap around, or finds no chunk even so. */
  ghost predicate Keeps(c: Chunks, size: nat) { Sane(size) || NoRoom(c, Need(size)) }

  /** Chunk `i` is the first with room. */
  ghost predicate FirstFit(c: Chunks, i: nat, need: nat) {
    && i < |c.at| == |c.used| && Room(c, i, need)
    && forall j :: 0 <= j < i ==> !Room(c, j, need)
  }

  lemma NoRoomBytes(c: Chunks, need: nat)
    requires |c.at| == |c.used|
    ensures NoRoom(c, need) <==> forall j: nat :: j < |c.at| && !c.used[j] ==> c.End(j) - c.at[j] < need
  {
    if forall j: nat :: j < |c.at| && !c.used[j] ==> c.End(j) - c.at[j] < need {
      forall i | 0 <= i < |c.at| ensures !Room(c, i, need) {}
    }
    if NoRoom(c, need) {
      forall j: nat | j < |c.at| && !c.used[j] ensures c.End(j) - c.at[j] < need { assert !Room(c, j, need); }
    }
  }

  lemma FirstFitBytes(c: Chunks, i: nat, need: nat)
    requires FirstFit(c, i, need)
    ensures !c.used[i] && c.End(i) - c.at[i] >= need
    ensures forall j: nat :: j < i && !c.used[j] ==> c.End(j) - c.at[j] < need
  {
    forall j: nat | j < i && !c.used[j] ensures c.End(j) - c.at[j] < need { assert !Room(c, j, need); }
  }

  /** Header `j`, unless listed, and the contents of block `j` are the same. */
  ghost predicate Untouched1(m: seq<Cell>, m': seq<Cell>, c: Chunks, j: nat, except: set<nat>)
    requires j < |c.at| == |c.used|
  {
    (j in except || SameAt(m, m', c, j)) && KeptAt(m, m', c, j)
  }

  ghost predicate Untouched(m: seq<Cell>, m': seq<Cell>, c: Chunks, except: set<nat>)
    requires |c.at| == |c.used|
  {
    forall j :: 0 <= j < |c.at| ==> Untouched1(m, m', c, j, except)
  }

  lemma UntouchedTwice(m0: seq<Cell>, m1: seq<Cell>, m2: seq<Cell>, c: Chunks, x: set<nat>, y: set<nat>)
    requires |c.at| == |c.used| && Untouched(m0, m1, c, x) && Untouched(m1, m2, c, y)
    ensures Untouched(m0, m2, c, x + y)
  {
    forall j | 0 <= j < |c.at| ensures Untouched1(m0, m2, c, j, x + y) {
      assert Untouched1(m0, m1, c, j, x) && Untouched1(m1, m2, c, j, y);
    }
  }

  /** What malloc promises: a new block of `r` bytes at `p`, and the others as they were. */
  ghost predicate Gained(m: seq<Cell>, c: Chunks, m': seq<Cell>, c': Chunks, p: nat, r: nat) {
    && p + r <= |m'| && (forall s :: !IsBlock(m, c, p, s))
    && forall q, s :: IsBlock(m', c', q, s) <==> IsBlock(m, c, q, s) || (q == p && s == m'[p..p + r])
  }

  /** The block at `p` is gone, and the others are as they were. */
  ghost predicate Gone(m: seq<Cell>, c: Chunks, m': seq<Cell>, c': Chunks, p: nat) {
    forall q, s :: IsBlock(m', c', q, s) <==> IsBlock(m, c, q, s) && q != p
  }

  /** The block at `p` is gone, that at `n` holds `s1`, and the others are as they were. */
  ghost predicate Replaced(m: seq<Cell>, c: Chunks, m': seq<Cell>, c': Chunks, p: nat, n: nat, s1: seq<Cell>) {
    forall q, s :: IsBlock(m', c', q, s) <==> if q == n then s == s1 else IsBlock(m, c, q, s) && q != p
  }

  /** What realloc promises: the contents `s1` at `n` where no block was, the block at `p` gone, and the
      others as they were. */
  ghost predicate Moved(m: seq<Cell>, c: Chunks, m': seq<Cell>, c': Chunks, p: nat, n: nat, s1: seq<Cell>) {
    n != p && (forall s :: !IsBlock(m, c, n, s)) && Replaced(m, c, m', c', p, n, s1)
  }

  lemma GainedBoth(m: seq<Cell>, c: Chunks, m': seq<Cell>, c': Chunks, n: nat, r: nat, p: nat, s0: seq<Cell>)
    requires Gained(m, c, m', c', n, r) && IsBlock(m, c, p, s0)
    ensures p != n && IsBlock(m', c', p, s0) && IsBlock(m', c', n, m'[n..n + r])
    ensures r == 0 ==> IsBlock(m', c', n, [])
  {
    assert r == 0 ==> m'[n..n + r] == [];
  }

  lemma MovedBy(m: seq<Cell>, c: Chunks, m1: seq<Cell>, c1: Chunks, m2: seq<Cell>, c2: Chunks, p: nat, n: nat, r: nat,
    s1: seq<Cell>)
    requires Gained(m, c, m1, c1, n, r) && Replaced(m1, c1, m2, c2, p, n, s1) && p != n
    ensures Moved(m, c, m2, c2, p, n, s1)
  {
  }

  class Heap {
    var mem: seq<Cell>
    /** The program break, in bytes above the start of the heap, and its bound in the kernel. */
    var brk: nat
    const limit: nat
    ghost var c: Chunks

    ghost predicate Valid()
      reads this
    {
      Holds(mem, c)
    }

    /** __malloc_init, lines 35-43. */
    constructor (size: nat, top: nat)
      requires HDR <= size < WORD && size % 4 == 0
      ensures Valid() && limit == top && c == Chunks([0], [false], size)
      ensures forall q, s :: !IsBlock(mem, c, q, s)
    {
      brk, limit := size, top;
      var h := Header(false, true, true, 0, size);
      mem := Put(seq(size, _ => Data(0)), 0, Encode(h));
      c := Chunks([0], [false], size);
      PutHeader(seq(size, _ => Data(0)), 0, h);
      new;
      assert c.Fits(0) && c.Tile();
      assert HoldsAt(mem, c, 0);
    }

    method Load(a: nat, ghost i: nat) returns (h: Header)
      requires Valid() && i < |c.at| && a == c.at[i]
      ensures h == c.HeaderOf(i) && a + HDR <= h.next <= c.size
    {
      assert HoldsAt(mem, c, i) && c.Fits(i);
      c.Bound(i);
      ghost var g := c.HeaderOf(i);
      assert PartAt(mem, a, g, 3) && PartAt(mem, a, g, 4) && PartAt(mem, a, g, 8);
      h := Header(mem[a + 3].used, mem[a + 3].first, mem[a + 3].last, mem[a + 4].to, mem[a + 8].to);
    }

    /** Lines 50-66, one pass: the first chunk with room. */
    method FindFit(need: nat) returns (found: bool, a: nat, ghost i: nat)
      requires Valid()
      ensures found ==> FirstFit(c, i, need) && a == c.at[i]
      ensures !found ==> NoRoom(c, need)
    {
      a, i := 0, 0;
      while true
        invariant i < |c.at| && a == c.at[i] && forall j :: 0 <= j < i ==> !Room(c, j, need)
        decreases |c.at| - i
      {
        var h := Load(a, i);
        if !h.used && h.next - a >= need { return true, a, i; }
        if h.last { return false, a, i; }
        a, i := h.next, i + 1;
      }
    }

    /** Write header `k` of the list. */
    method Store(a: nat, h: Header, ghost k: nat)
      requires c.Tile() && |mem| == c.size && k < |c.at| && a == c.at[k]
      modifies this`mem
      ensures |mem| == c.size && HeaderAt(mem, a, h)
      ensures Untouched(old(mem), mem, c, {k})
      ensures forall x: nat :: x + HDR <= c.size && (x + HDR <= a || a + HDR <= x) ==> SameHeader(old(mem), mem, x)
    {
      c.Bound(k);
      PutHeader(mem, a, h);
      forall x: nat | x + HDR <= c.size && (x + HDR <= a || a + HDR <= x)
        ensures SameHeader(mem, Put(mem, a, Encode(h)), x)
      {
        PutApart(mem, a, Encode(h), x, x + HDR);
      }
      forall j | 0 <= j < |c.at| ensures Untouched1(mem, Put(mem, a, Encode(h)), c, j, {k}) {
        PutAtChunk(mem, c, k, Encode(h), j);
      }
      mem := Put(mem, a, Encode(h));
    }

    /** Write a header into the free chunk `i`. */
    method StoreInside(a: nat, h: Header, ghost i: nat)
      requires c.Tile() && |mem| == c.size && i < |c.at| && !c.used[i] && c.at[i] + HDR <= a && a + HDR <= c.End(i)
      modifies this`mem
      ensures |mem| == c.size && HeaderAt(mem, a, h)
      ensures Untouched(old(mem), mem, c, {})
    {
      c.Bound(i);
      PutHeader(mem, a, h);
      forall j | 0 <= j < |c.at| ensures Untouched1(mem, Put(mem, a, Encode(h)), c, j, {}) {
        PutInside(mem, c, i, a, Encode(h), j);
      }
      mem := Put(mem, a, Encode(h));
    }

    /** Lines 67-77: mark chunk `i` and write the header of the rest behind its `r` bytes. */
    method Cut(a: nat, r: nat, h: Header, ghost i: nat)
      requires c.Tile() && |mem| == c.size && i < |c.at| && a == c.at[i] && Room(c, i, r + 2 * HDR)
      modifies this`mem
      ensures |mem| == c.size && Untouched(old(mem), mem, c, {i})
      ensures HeaderAt(mem, a + HDR + r, Header(false, false, h.last, a, h.next))
      ensures HeaderAt(mem, a, h.(used := true, last := false, next := a + HDR + r))
    {
      ghost var m0 := mem;
      var n := a + HDR + r;
      Store(a, h.(used := true), i);
      ghost var m1 := mem;
      StoreInside(n, Header(false, false, h.last, a, h.next), i);
      ghost var m2 := mem;
      UntouchedTwice(m0, m1, m2, c, {i}, {});
      assert {i} + {} == {i};
      Store(a, h.(used := true, last := false, next := n), i);
      KeepHeader(m2, mem, n, Header(false, false, h.last, a, h.next));
      UntouchedTwice(m0, m2, mem, c, {i}, {i});
      assert {i} + {i} == {i};
    }

    /** Lines 67-82: take chunk `i` and put a free chunk behind the `r` bytes. */
    method Take(a: nat, r: nat, ghost i: nat)
      requires Valid() && i < |c.at| && a == c.at[i] && Room(c, i, r + 2 * HDR) && r % 4 == 0
      modifies this
      ensures Valid() && c == Split(old(c), i, r) && |mem| == |old(mem)|
      ensures forall j :: 0 <= j < |old(c).at| ==> KeptAt(old(mem), mem, old(c), j)
    {
      ghost var m0 := mem;
      c.Bound(i);
      var h := Load(a, i);
      var g := h;
      if !h.last { g := Load(h.next, i + 1); }
      Cut(a, r, h, i);
      if !h.last {
        ghost var m3 := mem;
        var n := a + HDR + r;
        Store(h.next, g.(prev := n), i + 1);
        KeepHeader(m3, mem, n, Header(false, false, h.last, a, h.next));
        KeepHeader(m3, mem, a, h.(used := true, last := false, next := n));
        UntouchedTwice(m0, m3, mem, c, {i}, {i + 1});
      }
      SplitUp(m0, mem, c, i, r);
      c := Split(c, i, r);
    }

    /** The flag of line 78 or 81.  A byte that is not one of flags reads as anything. */
    method ReadLast(x: int) returns (last: bool)
    {
      if 0 <= x < |mem| && mem[x].Flags? { last := mem[x].last; } else { last := *; }
    }

    /** The pointer of line 82.  Bytes that are not those of one pointer read as anything. */
    method ReadPointer(x: int) returns (to: int)
    {
      if 0 <= x && x + 4 <= |mem| && mem[x].Ptr? && mem[x..x + 4] == Pointer(mem[x].to) {
        to := mem[x].to;
      } else {
        to := *;
      }
    }

    /** Lines 67-78 with the new header at `n`. */
    method CutWrapped(a: nat, n: int, h: Header)
      requires a + HDR <= |mem|
      modifies this`mem
      ensures |mem| == |old(mem)|
      ensures forall x :: 0 <= x < |mem| && x != a + 3 ==>
        mem[x] == if n <= x < n + HDR then Part(Header(false, false, h.last, a, h.next), x - n) else old(mem)[x]
    {
      mem := Poke(mem, a + 3, [Flags(true, h.first, h.last)]);
      mem := Poke(mem, n, Encode(Header(false, false, h.last, a, h.next)));
      var last := ReadLast(a + 3);
      if last {
        var b: Cell := *;
        if mem[a + 3].Flags? { b := mem[a + 3].(last := false); }
        mem := mem[a + 3 := b];
      }
    }

    /** Lines 67-82 where `r` and the two headers wrap around: the new header lies before the end of the
        header of chunk `i`, and after that the heap holds no list of chunks. */
    method TakeWrapped(a: nat, r: nat, ghost i: nat)
      requires Valid() && i < |c.at| && a == c.at[i] && r < WORD <= r + 2 * HDR && r % 4 == 0
      requires Room(c, i, r + 2 * HDR - WORD)
      modifies this`mem
      ensures |mem| == |old(mem)| && Broken(mem)
    {
      c.Bound(i);
      ghost var m0 := mem;
      var h := Load(a, i);
      var n := a + HDR + r - WORD;
      ghost var g := Header(false, false, h.last, a, h.next);
      CutWrapped(a, n, h);
      mem := Poke(mem, a + 8, Pointer(n));
      var last := ReadLast(n + 3);
      ghost var y := |mem|;
      if !last {
        var to := ReadPointer(n + 8);
        y := to + 4;
        mem := Poke(mem, to + 4, Pointer(n));
      }
      assert Wrecked(m0, mem, a, n, g, y);
      WreckBreaks(m0, mem, c, i, n, g, y);
    }

    /** Lines 121-125, 135-140 and 143-148: chunk `i` swallows the free chunk behind it. */
    method MergeNext(a: nat, ghost i: nat)
      requires Valid() && i + 1 < |c.at| && a == c.at[i] && !c.used[i] && !c.used[i + 1]
      modifies this
      ensures Valid() && c == Merge(old(c), i) && |mem| == |old(mem)|
      ensures forall q, s :: IsBlock(mem, c, q, s) <==> IsBlock(old(mem), old(c), q, s)
    {
      ghost var m0 := mem;
      var h := Load(a, i);
      var g := Load(h.next, i + 1);
      var f := g;
      if !g.last { f := Load(g.next, i + 2); }
      Store(a, h.(last := g.last, next := g.next), i);
      ghost var m1 := mem;
      if !g.last {
        Store(g.next, f.(prev := a), i + 2);
        c.Order(i, i + 2);
        KeepHeader(m1, mem, a, h.(last := g.last, next := g.next));
        UntouchedTwice(m0, m1, mem, c, {i}, {i + 2});
      }
      MergeUp(m0, mem, c, i);
      c := Merge(c, i);
    }

    /** sbrk on top of src/kernel_syscall.c:140-159: the break moves up unless it would pass its bound. */
    method Sbrk() returns (ok: bool)
      modifies this`brk
      ensures ok <==> old(brk) + OOM_INCREASE < limit
      ensures brk == if ok then old(brk) + OOM_INCREASE else old(brk)
    {
      ok := brk + OOM_INCREASE < limit;
      if ok { brk := brk + OOM_INCREASE; }
    }

    /** Lines 50-66.  Growing the break does not grow the last chunk, so a request without room is
        retried until the break is exhausted, and then fails. */
    method Search(need: nat) returns (found: bool, a: nat, ghost i: nat)
      requires Valid()
      modifies this`brk
      ensures found ==> FirstFit(c, i, need) && a == c.at[i]
      ensures !found ==> NoRoom(c, need)
    {
      found, a, i := FindFit(need);
      while !found
        invariant found ==> FirstFit(c, i, need) && a == c.at[i]
        invariant !found ==> NoRoom(c, need)
        decreases !found, limit - brk
      {
        var ok := Sbrk();
        if !ok { return; }
        found, a, i := FindFit(need);
      }
    }

    /** Lines 45-86. */
    method Malloc(size: nat) returns (p: nat, ghost i: nat)
      requires Valid() && size < WORD
      modifies this
      ensures |mem| == |old(mem)| && c.size == old(c).size
      ensures if Keeps(old(c), size) then Valid() else Broken(mem)
      ensures p == 0 <==> NoRoom(old(c), Need(size))
      ensures p == 0 <==> forall j: nat :: j < |old(c).at| && !old(c).used[j] ==>
        old(c).End(j) - old(c).at[j] < Need(size)
      ensures p == 0 ==> mem == old(mem) && c == old(c)
      ensures p != 0 ==> FirstFit(old(c), i, Need(size)) && p == old(c).at[i] + HDR && p % 4 == 0
      ensures p != 0 && Sane(size) ==> c == Split(old(c), i, Rounded(size))
      ensures p != 0 && Sane(size) ==> Gained(old(mem), old(c), mem, c, p, Rounded(size))
      ensures Keeps(old(c), size) && NoTwoFree(old(c)) ==> NoTwoFree(c)
      ensures size <= Rounded(size) <==> size <= WORD - ALIGN
    {
      WrapAround(size);
      var a: nat;
      var found: bool;
      NoRoomBytes(c, Need(size));
      found, a, i := Search(Need(size));
      if !found { return 0, 0; }
      p := a + HDR;
      FreeChunk(mem, c, i);
      if Sane(size) {
        if NoTwoFree(c) { SplitNoTwoFree(c, i, Rounded(size)); }
        Take(a, Rounded(size), i);
        TakenBlocks(old(mem), mem, old(c), i, Rounded(size), p);
      } else {
        TakeWrapped(a, Rounded(size), i);
      }
    }

    /** Lines 94-154, for NULL or the block of chunk `i` in use.  The branch for a last chunk at line 128 is
        never taken: the last chunk is free. */
    method Free(p: nat) returns (ghost i: nat)
      requires Valid() && (p == 0 || exists s :: IsBlock(mem, c, p, s))
      modifies this
      ensures Valid() && c.size == old(c).size
      ensures Gone(old(mem), old(c), mem, c, p)
      ensures p == 0 ==> mem == old(mem) && c == old(c)
      ensures p != 0 ==> i + 1 < |old(c).at| && p == old(c).at[i] + HDR && old(c).used[i]
      ensures p != 0 ==> c == Coalesced(Freed(old(c), i), i) && Rejoined(old(c), c, i)
    {
      i := 0;
      if p == 0 {
        NoBlockAtNull(mem, c);
        return;
      }
      ghost var s0 :| IsBlock(mem, c, p, s0);
      i :| i < |c.at| && BlockAt(mem, c, i, p, s0);
      FreeChunkOf(p, i);
    }

    /** Lines 97-150. */
    method FreeChunkOf(p: nat, ghost i: nat)
      requires Valid() && i < |c.at| && c.used[i] && p == c.at[i] + HDR
      modifies this
      ensures Valid() && Gone(old(mem), old(c), mem, c, p) && i + 1 < |old(c).at|
      ensures c == Coalesced(Freed(old(c), i), i) && Rejoined(old(c), c, i)
    {
      FreeJoins(c, i);
      var a := p - HDR;
      var h := Load(a, i);
      ghost var m0 := mem;
      Store(a, h.(used := false), i);
      FreeUp(m0, mem, c, i);
      c := Freed(c, i);
      Coalesce(a, h, i);
    }

    /** Lines 116-150. */
    method Coalesce(a: nat, h: Header, ghost i: nat)
      requires Valid() && i + 1 < |c.at| && a == c.at[i] && !c.used[i] && h.first == (i == 0)
      requires h.next == c.at[i + 1] && (i > 0 ==> h.prev == c.at[i - 1])
      modifies this
      ensures Valid() && c == Coalesced(old(c), i)
      ensures forall q, s :: IsBlock(mem, c, q, s) <==> IsBlock(old(mem), old(c), q, s)
    {
      var g := Load(h.next, i + 1);
      if !g.used {
        MergeNext(a, i);
        if g.last { return; }
      }
      if h.first { return; }
      var b := Load(h.prev, i - 1);
      if !b.used { MergeNext(h.prev, i - 1); }
    }

    /** A store by the program into a block of its own. */
    method Fill(p: nat, at: nat, bytes: seq<Cell>, ghost s0: seq<Cell>)
      requires Valid() && IsBlock(mem, c, p, s0) && at + |bytes| <= |s0|
      modifies this`mem
      ensures Valid() && |mem| == |old(mem)|
      ensures forall q, s :: IsBlock(mem, c, q, s) <==>
        if q == p then s == Put(s0, at, bytes) else IsBlock(old(mem), c, q, s)
    {
      ghost var i :| 0 <= i < |c.at| && BlockAt(mem, c, i, p, s0);
      FillUp(mem, c, i, at, bytes, s0);
      mem := Put(mem, p + at, bytes);
    }

    /** Lines 156-178.  With a size that wraps around, or with one of the last three and an old block that
        is not empty, the heap holds no list any more when malloc or the copy is done; what the call to
        free at line 176 does then is left open. */
    method Realloc(p: nat, size: nat, ghost s0: seq<Cell>) returns (n: nat, ghost s1: seq<Cell>)
      requires Valid() && size < WORD && (p == 0 || IsBlock(mem, c, p, s0))
      modifies this
      ensures |mem| == |old(mem)| && c.size == old(c).size
      ensures size == 0 ==> n == 0 && Valid() && Gone(old(mem), old(c), mem, c, p)
      ensures size != 0 ==> (n == 0 <==> NoRoom(old(c), Need(size)))
      ensures size != 0 && n == 0 ==> Valid() && mem == old(mem) && c == old(c)
      ensures n != 0 && !Sane(size) ==> Broken(mem)
      ensures n != 0 && size > WORD - ALIGN && p != 0 && s0 != [] && s0[0] != Data(MAGIC[0]) ==> Broken(mem)
      ensures n != 0 && Sane(size) && (size <= WORD - ALIGN || p == 0 || s0 == []) ==>
        && Valid() && Moved(old(mem), old(c), mem, c, p, n, s1) && (size <= WORD - ALIGN ==> size <= |s1|)
        && (p != 0 ==> s0[..if |s0| > size then size else |s0|] <= s1)
    {
      WrapAround(size);
      s1 := [];
      if size == 0 {
        ghost var j := Free(p);
        return 0, [];
      }
      if p != 0 {
        n, s1 := ReallocBlock(p, size, s0);
        return;
      }
      NoBlockAtNull(mem, c);
      ghost var i: nat;
      n, i := Malloc(size);
      if n != 0 && Sane(size) {
        s1 := mem[n..n + Rounded(size)];
        assert IsBlock(mem, c, n, s1);
      }
    }

    /** Lines 165-177. */
    method ReallocBlock(p: nat, size: nat, ghost s0: seq<Cell>) returns (n: nat, ghost s1: seq<Cell>)
      requires Valid() && 0 < size < WORD && IsBlock(mem, c, p, s0)
      modifies this
      ensures |mem| == |old(mem)| && c.size == old(c).size
      ensures n == 0 <==> NoRoom(old(c), Need(size))
      ensures n == 0 ==> Valid() && mem == old(mem) && c == old(c)
      ensures n != 0 && !Sane(size) ==> Broken(mem)
      ensures n != 0 && size > WORD - ALIGN && s0 != [] && s0[0] != Data(MAGIC[0]) ==> Broken(mem)
      ensures n != 0 && Sane(size) && (size <= WORD - ALIGN || s0 == []) ==>
        && Valid() && Moved(old(mem), old(c), mem, c, p, n, s1) && (size <= WORD - ALIGN ==> size <= |s1|)
        && s0[..if |s0| > size then size else |s0|] <= s1
    {
      WrapAround(size);
      s1 := [];
      ghost var i :| 0 <= i < |c.at| && BlockAt(mem, c, i, p, s0);
      var h := Load(p - HDR, i);
      var oldSize := h.next - p;
      n, i := Malloc(size);
      if n == 0 || !Sane(size) { return; }
      s1 := Carry(p, n, if oldSize > size then size else oldSize, Rounded(size), s0, old(mem), old(c));
    }

    /** Lines 174-177, after malloc has put a block of `r` bytes at `n`. */
    method Carry(p: nat, n: nat, k: nat, r: nat, ghost s0: seq<Cell>, ghost m0: seq<Cell>, ghost c0: Chunks)
      returns (ghost s1: seq<Cell>)
      requires Valid() && IsBlock(m0, c0, p, s0) && Gained(m0, c0, mem, c, n, r)
      requires k <= |s0| && (k > r ==> r == 0 && k == |s0|)
      modifies this
      ensures |mem| == |old(mem)| && c.size == old(c).size
      ensures k <= r ==> Valid() && Moved(m0, c0, mem, c, p, n, s1) && |s1| == r && s0[..k] <= s1
      ensures k > r && s0[0] != Data(MAGIC[0]) ==> Broken(mem)
    {
      ghost var m1, c1 := mem, c;
      GainedBoth(m0, c0, m1, c1, n, r, p, s0);
      s1 := [];
      if k > r {
        Overrun(p, n, k, s0);
        return;
      }
      s1 := Put(m1[n..n + r], 0, s0[..k]);
      Move(p, n, k, s0, m1[n..n + r]);
      MovedBy(m0, c0, m1, c1, mem, c, p, n, r, s1);
    }

    /** Line 174 into a block of no bytes: the copy begins on the header behind it.  It goes upwards, so
        that where it runs into the old block it has read those bytes before. */
    method Overrun(p: nat, n: nat, k: nat, ghost s0: seq<Cell>)
      requires Valid() && IsBlock(mem, c, p, s0) && IsBlock(mem, c, n, []) && 0 < k == |s0|
      modifies this`mem
      ensures |mem| == |old(mem)|
      ensures s0[0] != Data(MAGIC[0]) ==> Broken(mem)
    {
      ghost var j :| 0 <= j < |c.at| && BlockAt(mem, c, j, n, []);
      c.Bound(j + 1);
      BlockPrefix(mem, c, p, s0, k);
      ghost var m0 := mem;
      mem := Poke(mem, n, mem[p..p + k]);
      if s0[0] != Data(MAGIC[0]) { MagicBreaks(m0, mem, c, j + 1); }
    }

    /** Lines 174-176: copy the first `k` bytes and free the old block. */
    method Move(p: nat, n: nat, k: nat, ghost s0: seq<Cell>, ghost s1: seq<Cell>)
      requires Valid() && IsBlock(mem, c, p, s0) && IsBlock(mem, c, n, s1) && p != n && k <= |s0| && k <= |s1|
      modifies this
      ensures Valid() && c.size == old(c).size
      ensures Replaced(old(mem), old(c), mem, c, p, n, Put(s1, 0, s0[..k]))
    {
      BlockPrefix(mem, c, p, s0, k);
      Fill(n, 0, mem[p..p + k], s1);
      assert IsBlock(mem, c, p, s0);
      ghost var i := Free(p);
    }
  }

  /** Storing inside a block in use keeps the headers and every other block. */
  lemma FillUp(m: seq<Cell>, c: Chunks, i: nat, at: nat, bytes: seq<Cell>, s0: seq<Cell>)
    requires Holds(m, c) && i < |c.at| && BlockAt(m, c, i, c.at[i] + HDR, s0) && at + |bytes| <= |s0|
    ensures c.at[i] + HDR + at + |bytes| <= |m|
    ensures var p := c.at[i] + HDR; var m' := Put(m, p + at, bytes);
      && Holds(m', c)
      && forall q, s :: IsBlock(m', c, q, s) <==> if q == p then s == Put(s0, at, bytes) else IsBlock(m, c, q, s)
  {
    var p := c.at[i] + HDR;
    var m' := Put(m, p + at, bytes);
    forall j | 0 <= j < |c.at| ensures HoldsAt(m', c, j) && (j != i ==> KeptAt(m, m', c, j)) {
      FillAt(m, c, i, p + at, bytes, j);
      assert HoldsAt(m, c, j);
      KeepHeader(m, m', c.at[j], c.HeaderOf(j));
    }
    PutSlice(m, p, c.End(i), at, bytes);
    forall q, s ensures IsBlock(m', c, q, s) <==> if q == p then s == Put(s0, at, bytes) else IsBlock(m, c, q, s) {
      FillBlocks(m, m', c, i, q, s);
    }
  }

  lemma FillAt(m: seq<Cell>, c: Chunks, i: nat, a: nat, bytes: seq<Cell>, j: nat)
    requires c.Tile() && |m| == c.size && i < |c.at| && j < |c.at|
    requires c.at[i] + HDR <= a && a + |bytes| <= c.End(i) <= |m|
    ensures SameAt(m, Put(m, a, bytes), c, j) && (j != i ==> KeptAt(m, Put(m, a, bytes), c, j))
  {
    c.Bound(j);
    if j < i { c.Order(j, i); }
    if i < j { c.Order(i, j); }
    assert c.Fits(j);
    PutApart(m, a, bytes, c.at[j], c.at[j] + HDR);
    if j != i { PutApart(m, a, bytes, c.at[j] + HDR, c.End(j)); }
  }

  lemma FillBlocks(m: seq<Cell>, m': seq<Cell>, c: Chunks, i: nat, q: nat, s: seq<Cell>)
    requires c.Tile() && |m| == |m'| == c.size && i < |c.at| && c.used[i] && c.at[i] + HDR <= c.End(i) <= |m|
    requires forall j :: 0 <= j < |c.at| && j != i ==> KeptAt(m, m', c, j)
    ensures var p := c.at[i] + HDR;
      IsBlock(m', c, q, s) <==> if q == p then s == m'[p..c.End(i)] else IsBlock(m, c, q, s)
  {
    var p := c.at[i] + HDR;
    forall k | 0 <= k < |c.at| && k != i ensures c.at[k] != c.at[i] {
      if k < i { c.Order(k, i); }
      if i < k { c.Order(i, k); }
      assert c.Fits(k) && c.Fits(i);
    }
    if IsBlock(m', c, q, s) {
      var k :| 0 <= k < |c.at| && BlockAt(m', c, k, q, s);
      assert k != i ==> KeptAt(m, m', c, k) && BlockAt(m, c, k, q, s);
    }
    if q == p && s == m'[p..c.End(i)] { assert BlockAt(m', c, i, q, s); }
    if q != p && IsBlock(m, c, q, s) {
      var k :| 0 <= k < |c.at| && BlockAt(m, c, k, q, s);
      assert KeptAt(m, m', c, k) && BlockAt(m', c, k, q, s);
    }
  }

  lemma BlockPrefix(m: seq<Cell>, c: Chunks, p: nat, s: seq<Cell>, k: nat)
    requires IsBlock(m, c, p, s) && k <= |s|
    ensures p + k <= |m| && m[p..p + k] == s[..k]
  {
    var j :| 0 <= j < |c.at| && BlockAt(m, c, j, p, s);
  }

  /** Blocks in use never overlap. */
  lemma BlocksApart(m: seq<Cell>, c: Chunks, p: nat, s: seq<Cell>, q: nat, t: seq<Cell>)
    requires c.Tile() && IsBlock(m, c, p, s) && IsBlock(m, c, q, t) && p != q
    ensures p + |s| <= q || q + |t| <= p
  {
    var i :| 0 <= i < |c.at| && BlockAt(m, c, i, p, s);
    var j :| 0 <= j < |c.at| && BlockAt(m, c, j, q, t);
    if i < j { c.Order(i, j); } else if j < i { c.Order(j, i); }
  }

  lemma NoBlockAtNull(m: seq<Cell>, c: Chunks)
    ensures forall s :: !IsBlock(m, c, 0, s)
  {
  }

  lemma FreeUp(m: seq<Cell>, m': seq<Cell>, c: Chunks, i: nat)
    requires Holds(m, c) && |m'| == |m| && i < |c.at| && HeaderAt(m', c.at[i], c.HeaderOf(i).(used := false))
    requires Untouched(m, m', c, {i})
    ensures Holds(m', Freed(c, i)) && Gone(m, c, m', Freed(c, i), c.at[i] + HDR)
  {
    forall j | 0 <= j < |c.at| ensures KeptAt(m, m', c, j) && (j == i || SameAt(m, m', c, j)) {
      assert Untouched1(m, m', c, j, {i});
    }
    FreeHolds(m, m', c, i);
    forall q, s ensures IsBlock(m', Freed(c, i), q, s) <==> IsBlock(m, c, q, s) && q != c.at[i] + HDR {
      FreeBlocks(m, m', c, i, q, s);
    }
  }

  lemma FreeChunk(m: seq<Cell>, c: Chunks, i: nat)
    requires Holds(m, c) && i < |c.at| && !c.used[i]
    ensures var p := c.at[i] + HDR; p % 4 == 0 && forall s :: !IsBlock(m, c, p, s)
  {
    var p := c.at[i] + HDR;
    assert c.Fits(i);
    forall j | 0 <= j < |c.at| ensures KeptAt(m, m, c, j) { c.Bound(j); }
    assert Freed(c, i) == c;
    forall s ensures !IsBlock(m, c, p, s) { FreeBlocks(m, m, c, i, p, s); }
  }

  lemma TakenBlocks(m: seq<Cell>, m': seq<Cell>, c: Chunks, i: nat, r: nat, p: nat)
    requires c.Tile() && |m| == |m'| == c.size && i < |c.at| && Room(c, i, r + 2 * HDR)
    requires forall j :: 0 <= j < |c.at| ==> KeptAt(m, m', c, j)
    requires p == c.at[i] + HDR && forall s :: !IsBlock(m, c, p, s)
    ensures Gained(m, c, m', Split(c, i, r), p, r)
  {
    c.Bound(i);
    forall q, s ensures IsBlock(m', Split(c, i, r), q, s) <==> IsBlock(m, c, q, s) || (q == p && s == m'[p..p + r]) {
      SplitBlocks(m, m', c, i, r, q, s);
    }
  }

  lemma MergeUp(m: seq<Cell>, m': seq<Cell>, c: Chunks, i: nat)
    requires Holds(m, c) && |m'| == |m| && i + 1 < |c.at| && !c.used[i] && !c.used[i + 1]
    requires var h, g := c.HeaderOf(i), c.HeaderOf(i + 1);
      && HeaderAt(m', c.at[i], h.(last := g.last, next := g.next))
      && (i + 2 < |c.at| ==> HeaderAt(m', c.at[i + 2], c.HeaderOf(i + 2).(prev := c.at[i])))
    requires exists x: set<nat> :: x <= {i, i + 2} && Untouched(m, m', c, x)
    ensures Holds(m', Merge(c, i))
    ensures forall q, s :: IsBlock(m', Merge(c, i), q, s) <==> IsBlock(m, c, q, s)
  {
    var d := Merge(c, i);
    var x: set<nat> :| x <= {i, i + 2} && Untouched(m, m', c, x);
    forall j | 0 <= j < |c.at| ensures KeptAt(m, m', c, j) && (j == i || j == i + 2 || SameAt(m, m', c, j)) {
      assert Untouched1(m, m', c, j, x);
    }
    MergeHolds(m, m', c, i);
    forall q, s ensures IsBlock(m', d, q, s) <==> IsBlock(m, c, q, s) { MergeBlocks(m, m', c, i, q, s); }
  }

  /** The headers written by Take are those of the split list. */
  lemma SplitUp(m: seq<Cell>, m': seq<Cell>, c: Chunks, i: nat, r: nat)
    requires Holds(m, c) && |m'| == |m| && i < |c.at| && Room(c, i, r + 2 * HDR) && r % 4 == 0
    requires var h, n := c.HeaderOf(i), c.at[i] + HDR + r;
      && HeaderAt(m', c.at[i], h.(used := true, last := false, next := n))
      && HeaderAt(m', n, Header(false, false, h.last, c.at[i], h.next))
      && (i + 1 < |c.at| ==> HeaderAt(m', c.at[i + 1], c.HeaderOf(i + 1).(prev := n)))
    requires exists x: set<nat> :: x <= {i, i + 1} && Untouched(m, m', c, x)
    ensures Holds(m', Split(c, i, r))
    ensures forall j :: 0 <= j < |c.at| ==> KeptAt(m, m', c, j)
  {
    var d := Split(c, i, r);
    var x: set<nat> :| x <= {i, i + 1} && Untouched(m, m', c, x);
    forall j | 0 <= j < |c.at| ensures KeptAt(m, m', c, j) && (j == i || j == i + 1 || SameAt(m, m', c, j)) {
      assert Untouched1(m, m', c, j, x);
    }
    SplitHolds(m, m', c, i, r);
  }

  /** malloc(-8) on a fresh heap. */
  method MallocBreaks() returns (h: Heap)
    ensures fresh(h) && Broken(h.mem)
  {
    h := new Heap(START_HEAP_SIZE, MAX_HEAP_SIZE);
    assert Room(h.c, 0, Need(WORD - 8));
    var p, i := h.Malloc(WORD - 8);
  }

  /** malloc(0x7000000), free and malloc(0x7800000) on a fresh heap: the third call needs the memory of the first
      and the rest behind it in one piece. */
  method FreeGivesBack() returns (h: Heap, q: nat)
    ensures fresh(h) && h.Valid() && q != 0
  {
    h := new Heap(START_HEAP_SIZE, MAX_HEAP_SIZE);
    assert Room(h.c, 0, Need(0x700_0000));
    var p, i := h.Malloc(0x700_0000);
    assert IsBlock(h.mem, h.c, p, h.mem[p..p + 0x700_0000]);
    i := h.Free(p);
    StretchRoom(h.c, 0, START_HEAP_SIZE, Need(0x780_0000));
    q, i := h.Malloc(0x780_0000);
  }

  /** A fresh heap with one block of four bytes that the program has written. */
  method OneBlock(bytes: seq<Cell>) returns (h: Heap, p: nat)
    requires |bytes| == 4
    ensures fresh(h) && h.Valid() && p == 12 && IsBlock(h.mem, h.c, p, bytes)
    ensures h.c == Split(Chunks([0], [false], START_HEAP_SIZE), 0, 4)
  {
    h := new Heap(START_HEAP_SIZE, MAX_HEAP_SIZE);
    assert Room(h.c, 0, Need(4));
    ghost var i: nat;
    p, i := h.Malloc(4);
    ghost var s := h.mem[p..p + 4];
    assert IsBlock(h.mem, h.c, p, s);
    h.Fill(p, 0, bytes, s);
    assert Put(s, 0, bytes) == bytes;
  }

  lemma SecondFit(c: Chunks, i: nat)
    requires c == Split(Chunks([0], [false], START_HEAP_SIZE), 0, 4)
    ensures Rounded(4) == 4 && Sane(4) && !NoRoom(c, Need(4))
    ensures FirstFit(c, i, Need(4)) ==> i == 1 && c.at[i] == 16
    ensures Split(c, 1, 4) == Chunks([0, 16, 32], [true, true, false], START_HEAP_SIZE)
  {
    assert c == Chunks([0, 16], [true, false], START_HEAP_SIZE);
    assert Room(c, 1, Need(4));
  }

  /** A second block of four bytes behind the first. */
  method TwoBlocks() returns (h: Heap, p: nat, q: nat)
    ensures fresh(h) && h.Valid() && p != q
    ensures (exists s :: IsBlock(h.mem, h.c, p, s)) && exists s :: IsBlock(h.mem, h.c, q, s)
    ensures p == 12 && q == 28 && h.c == Chunks([0, 16, 32], [true, true, false], START_HEAP_SIZE)
  {
    var bytes: seq<Cell> := [Data(1), Data(2), Data(3), Data(4)];
    h, p := OneBlock(bytes);
    ghost var m, c, i := h.mem, h.c, 0;
    SecondFit(c, i);
    q, i := h.Malloc(4);
    SecondFit(c, i);
    GainedBoth(m, c, h.mem, h.c, q, 4, p, bytes);
  }

  /** Freeing them in order leaves two free chunks side by side. */
  method FreeLeavesTwo() returns (h: Heap)
    ensures fresh(h) && h.Valid() && !NoTwoFree(h.c)
  {
    var p, q;
    h, p, q := TwoBlocks();
    ghost var i := h.Free(p);
    assert h.c == Chunks([0, 16, 32], [false, true, false], START_HEAP_SIZE);
    i := h.Free(q);
  }

  /** realloc(p, -1) of a block of four bytes. */
  method ReallocBreaks() returns (h: Heap)
    ensures fresh(h) && Broken(h.mem)
  {
    var bytes: seq<Cell> := [Data(1), Data(2), Data(3), Data(4)];
    var p;
    h, p := OneBlock(bytes);
    assert Room(h.c, 1, Need(WORD - 1));
    NoBlockAtNull(h.mem, h.c);
    var n, s1 := h.Realloc(p, WORD - 1, bytes);
  }
}
