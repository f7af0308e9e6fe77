/** qsort_r of libc/src/qsort.c on an array of bytes holding `n` elements of width `w`.  A pointer
    `base + k * w` is the element index `k`. */
module Qsort {
  import opened Numbers

  type Item = seq<Byte>

  /** The caller's comparison function with its extra argument. */
  type Compare = (Item, Item) -> int

  ghost predicate Preorder(cmp: Compare) {
    && (forall x :: cmp(x, x) == 0)
    && (forall x, y :: cmp(x, y) < 0 <==> cmp(y, x) > 0)
    && (forall x, y, z :: Transitive(cmp, x, y, z))
  }

  predicate Transitive(cmp: Compare, x: Item, y: Item, z: Item) {
    cmp(x, y) <= 0 && cmp(y, z) <= 0 ==> cmp(x, z) <= 0
  }

  // ---------- elements in bytes ----------

  lemma Inside(k: nat, n: nat, w: nat)
    requires k < n
    ensures 0 <= k * w <= k * w + w <= n * w
  {
    assert n * w == k * w + w + (n - k - 1) * w;
  }

  lemma Apart(i: nat, j: nat, w: nat)
    requires i < j
    ensures i * w + w <= j * w
  {
    assert j * w == i * w + w + (j - i - 1) * w;
  }

  function Elem(m: seq<Byte>, n: nat, w: nat, k: nat): (e: Item)
    requires |m| == n * w && k < n
    ensures |e| == w
  {
    Inside(k, n, w);
    m[k * w..k * w + w]
  }

  function Elems(m: seq<Byte>, n: nat, w: nat): (s: seq<Item>)
    requires |m| == n * w
    ensures |s| == n
  {
    seq(n, k requires 0 <= k < n => Elem(m, n, w, k))
  }

  lemma ElemsAt(m: seq<Byte>, n: nat, w: nat, j: nat)
    requires |m| == n * w && j < n
    ensures Elems(m, n, w)[j] == Elem(m, n, w, j)
  {
  }

  // ---------- permutations of a range ----------

  /** How often `x` occurs from `lo` to before `hi`. */
  function Count(s: seq<Item>, lo: nat, hi: nat, x: Item): nat
    requires lo <= hi <= |s|
  {
    if lo == hi then 0 else Count(s, lo, hi - 1, x) + if s[hi - 1] == x then 1 else 0
  }

  /** `t` is `s` with the elements from `lo` to before `hi` permuted. */
  ghost predicate Permuted(s: seq<Item>, t: seq<Item>, lo: nat, hi: nat) {
    && lo <= hi <= |s| == |t|
    && (forall k :: 0 <= k < lo || hi <= k < |s| ==> t[k] == s[k])
    && (forall x :: Count(t, lo, hi, x) == Count(s, lo, hi, x))
  }

  lemma PermutedTwice(s: seq<Item>, t: seq<Item>, u: seq<Item>, lo: nat, hi: nat)
    requires Permuted(s, t, lo, hi) && Permuted(t, u, lo, hi)
    ensures Permuted(s, u, lo, hi)
  {
  }

  lemma {:induction false} CountSame(s: seq<Item>, t: seq<Item>, lo: nat, hi: nat, x: Item)
    requires lo <= hi <= |s| == |t| && forall k :: lo <= k < hi ==> t[k] == s[k]
    ensures Count(t, lo, hi, x) == Count(s, lo, hi, x)
  {
    if lo < hi { CountSame(s, t, lo, hi - 1, x); }
  }

  lemma {:induction false} CountSplit(s: seq<Item>, lo: nat, m: nat, hi: nat, x: Item)
    requires lo <= m <= hi <= |s|
    ensures Count(s, lo, hi, x) == Count(s, lo, m, x) + Count(s, m, hi, x)
  {
    if m < hi { CountSplit(s, lo, m, hi - 1, x); }
  }

  lemma {:induction false} CountUpdate(s: seq<Item>, lo: nat, hi: nat, i: nat, y: Item, x: Item)
    requires lo <= i < hi <= |s|
    ensures Count(s[i := y], lo, hi, x)
         == Count(s, lo, hi, x) - (if s[i] == x then 1 else 0) + (if y == x then 1 else 0)
  {
    if i < hi - 1 {
      CountUpdate(s, lo, hi - 1, i, y, x);
    } else {
      CountSame(s, s[i := y], lo, hi - 1, x);
      if s[i] == x { CountHas(s, lo, hi, i); }
    }
  }

  lemma {:induction false} CountHas(s: seq<Item>, lo: nat, hi: nat, k: nat)
    requires lo <= k < hi <= |s|
    ensures Count(s, lo, hi, s[k]) > 0
  {
    if k < hi - 1 { CountHas(s, lo, hi - 1, k); }
  }

  lemma {:induction false} CountFind(s: seq<Item>, lo: nat, hi: nat, x: Item) returns (k: nat)
    requires lo <= hi <= |s| && Count(s, lo, hi, x) > 0
    ensures lo <= k < hi && s[k] == x
  {
    if s[hi - 1] == x { k := hi - 1; } else { k := CountFind(s, lo, hi - 1, x); }
  }

  lemma {:induction false} CountMultiset(s: seq<Item>, n: nat, x: Item)
    requires n <= |s|
    ensures multiset(s[..n])[x] == Count(s, 0, n, x)
  {
    if n > 0 {
      CountMultiset(s, n - 1, x);
      assert s[..n] == s[..n - 1] + [s[n - 1]];
    }
  }

  lemma PermutedWider(s: seq<Item>, t: seq<Item>, lo: nat, hi: nat, a: nat, b: nat)
    requires Permuted(s, t, lo, hi) && a <= lo && hi <= b <= |s|
    ensures Permuted(s, t, a, b)
  {
    forall x ensures Count(t, a, b, x) == Count(s, a, b, x) {
      CountSplit(s, a, lo, b, x);
      CountSplit(s, lo, hi, b, x);
      CountSplit(t, a, lo, b, x);
      CountSplit(t, lo, hi, b, x);
      CountSame(s, t, a, lo, x);
      CountSame(s, t, hi, b, x);
    }
  }

  /** Everything from `lo` to before `hi` is at most `x`. */
  ghost predicate AtMost(s: seq<Item>, lo: nat, hi: nat, x: Item, cmp: Compare) {
    lo <= hi <= |s| && forall k :: lo <= k < hi ==> cmp(s[k], x) <= 0
  }

  ghost predicate AtLeast(s: seq<Item>, lo: nat, hi: nat, x: Item, cmp: Compare) {
    lo <= hi <= |s| && forall k :: lo <= k < hi ==> cmp(x, s[k]) <= 0
  }

  lemma PermutedMember(s: seq<Item>, t: seq<Item>, lo: nat, hi: nat, k: nat) returns (j: nat)
    requires Permuted(s, t, lo, hi) && lo <= k < hi
    ensures lo <= j < hi && s[j] == t[k]
  {
    CountHas(t, lo, hi, k);
    j := CountFind(s, lo, hi, t[k]);
  }

  lemma PermutedBounds(s: seq<Item>, t: seq<Item>, lo: nat, hi: nat, x: Item, cmp: Compare)
    requires Permuted(s, t, lo, hi)
    ensures AtMost(s, lo, hi, x, cmp) ==> AtMost(t, lo, hi, x, cmp)
    ensures AtLeast(s, lo, hi, x, cmp) ==> AtLeast(t, lo, hi, x, cmp)
  {
    forall k | lo <= k < hi
      ensures AtMost(s, lo, hi, x, cmp) ==> cmp(t[k], x) <= 0
      ensures AtLeast(s, lo, hi, x, cmp) ==> cmp(x, t[k]) <= 0
    {
      var j := PermutedMember(s, t, lo, hi, k);
    }
  }

  function Exchanged(s: seq<Item>, i: nat, j: nat): seq<Item>
    requires i < j < |s|
  {
    s[i := s[j]][j := s[i]]
  }

  lemma ExchangedPermuted(s: seq<Item>, i: nat, j: nat, lo: nat, hi: nat)
    requires lo <= i < j < hi <= |s|
    ensures Permuted(s, Exchanged(s, i, j), lo, hi)
  {
    forall x ensures Count(Exchanged(s, i, j), lo, hi, x) == Count(s, lo, hi, x) {
      CountUpdate(s, lo, hi, i, s[j], x);
      CountUpdate(s[i := s[j]], lo, hi, j, s[i], x);
    }
  }

  // ---------- qsort_swap ----------

  /** Byte `y` of `t`, which is `s` with the `w` bytes at `a` and at `b` exchanged. */
  function ByteAfter(s: seq<Byte>, a: nat, b: nat, w: nat, y: nat): Byte
    requires a + w <= b && b + w <= |s| && y < |s|
  {
    if a <= y < a + w then s[y - a + b] else if b <= y < b + w then s[y - b + a] else s[y]
  }

  ghost predicate BytesExchanged(s: seq<Byte>, t: seq<Byte>, a: nat, b: nat, w: nat) {
    && a + w <= b && b + w <= |s| == |t|
    && forall y :: 0 <= y < |s| ==> t[y] == ByteAfter(s, a, b, w, y)
  }

  method SwapBytes(mem: array<Byte>, w: nat, a: nat, b: nat)
    requires a + w <= b && b + w <= mem.Length
    modifies mem
    ensures BytesExchanged(old(mem[..]), mem[..], a, b, w)
  {
    ghost var s := mem[..];
    var x := 0;
    while x < w
      invariant x <= w
      invariant forall y :: 0 <= y < mem.Length ==> mem[y] == ByteAfter(s, a, b, x, y)
    {
      var t := mem[a + x];
      mem[a + x] := mem[b + x];
      mem[b + x] := t;
      x := x + 1;
    }
  }

  lemma ExchangedAt(s: seq<Byte>, t: seq<Byte>, n: nat, w: nat, i: nat, j: nat, k: nat)
    requires |s| == n * w && i < j < n && k < n && BytesExchanged(s, t, i * w, j * w, w)
    ensures Elem(t, n, w, k)
         == if k == i then Elem(s, n, w, j) else if k == j then Elem(s, n, w, i) else Elem(s, n, w, k)
  {
    Inside(k, n, w);
    if k < i { Apart(k, i, w); }
    if i < k { Apart(i, k, w); }
    if k < j { Apart(k, j, w); }
    if j < k { Apart(j, k, w); }
    SliceAfter(s, t, i * w, j * w, w, k * w);
  }

  lemma SliceAfter(s: seq<Byte>, t: seq<Byte>, a: nat, b: nat, w: nat, c: nat)
    requires BytesExchanged(s, t, a, b, w) && c + w <= |s|
    requires c == a || c == b || ((c + w <= a || a + w <= c) && (c + w <= b || b + w <= c))
    ensures c == a ==> t[c..c + w] == s[b..b + w]
    ensures c == b ==> t[c..c + w] == s[a..a + w]
    ensures (c + w <= a || a + w <= c) && (c + w <= b || b + w <= c) ==> t[c..c + w] == s[c..c + w]
  {
  }

  /** The bytes of two elements change places one by one, and so do the elements. */
  method Swap(mem: array<Byte>, n: nat, w: nat, i: nat, j: nat)
    requires mem.Length == n * w && i < j < n
    modifies mem
    ensures Elems(mem[..], n, w) == Exchanged(old(Elems(mem[..], n, w)), i, j)
  {
    Inside(i, n, w);
    Inside(j, n, w);
    Apart(i, j, w);
    ghost var m := mem[..];
    SwapBytes(mem, w, i * w, j * w);
    ElemsExchanged(m, mem[..], n, w, i, j);
  }

  lemma ElemsExchangedAt(s: seq<Byte>, t: seq<Byte>, n: nat, w: nat, i: nat, j: nat, k: nat)
    requires |s| == n * w && i < j < n && k < n && BytesExchanged(s, t, i * w, j * w, w)
    ensures Elems(t, n, w)[k] == Exchanged(Elems(s, n, w), i, j)[k]
  {
    ExchangedAt(s, t, n, w, i, j, k);
    ElemsAt(s, n, w, i);
    ElemsAt(s, n, w, j);
    ElemsAt(s, n, w, k);
    ElemsAt(t, n, w, k);
  }

  lemma ElemsExchanged(s: seq<Byte>, t: seq<Byte>, n: nat, w: nat, i: nat, j: nat)
    requires |s| == n * w && i < j < n && BytesExchanged(s, t, i * w, j * w, w)
    ensures |t| == n * w && Elems(t, n, w) == Exchanged(Elems(s, n, w), i, j)
  {
    var a, b := Elems(t, n, w), Exchanged(Elems(s, n, w), i, j);
    forall k | 0 <= k < n ensures a[k] == b[k] {
      ElemsExchangedAt(s, t, n, w, i, j, k);
    }
  }

  // ---------- qsort_part ----------

  /** The comparison of element `k` with the pivot location `lo`. */
  method CompareAt(mem: array<Byte>, n: nat, w: nat, k: nat, lo: nat, cmp: Compare) returns (c: int)
    requires mem.Length == n * w && k < n && lo < n
    ensures var e := Elems(mem[..], n, w); c == cmp(e[k], e[lo])
  {
    Inside(k, n, w);
    Inside(lo, n, w);
    c := cmp(mem[k * w..k * w + w], mem[lo * w..lo * w + w]);
    assert mem[..][k * w..k * w + w] == mem[k * w..k * w + w];
    assert mem[..][lo * w..lo * w + w] == mem[lo * w..lo * w + w];
    ElemsAt(mem[..], n, w, k);
    ElemsAt(mem[..], n, w, lo);
  }

  /** Upwards to the first element not below the pivot; element `stop` is one. */
  method ScanUp(mem: array<Byte>, n: nat, w: nat, from: int, lo: nat, ghost stop: nat, cmp: Compare) returns (i: int)
    requires mem.Length == n * w && lo < n && -1 <= from < stop < n
    requires var e := Elems(mem[..], n, w); cmp(e[stop], e[lo]) >= 0
    ensures from < i <= stop
    ensures var e := Elems(mem[..], n, w);
      cmp(e[i], e[lo]) >= 0 && forall k :: from < k < i ==> cmp(e[k], e[lo]) < 0
  {
    ghost var e := Elems(mem[..], n, w);
    i := from + 1;
    var c := CompareAt(mem, n, w, i, lo, cmp);
    while c < 0
      invariant from < i <= stop && c == cmp(e[i], e[lo])
      invariant forall k :: from < k < i ==> cmp(e[k], e[lo]) < 0
      decreases stop - i
    {
      i := i + 1;
      c := CompareAt(mem, n, w, i, lo, cmp);
    }
  }

  /** Downwards to the first element not above the pivot; element `stop` is one. */
  method ScanDown(mem: array<Byte>, n: nat, w: nat, from: int, lo: nat, ghost stop: nat, cmp: Compare) returns (j: int)
    requires mem.Length == n * w && lo < n && stop < from <= n
    requires var e := Elems(mem[..], n, w); cmp(e[stop], e[lo]) <= 0
    ensures stop <= j < from
    ensures var e := Elems(mem[..], n, w);
      cmp(e[j], e[lo]) <= 0 && forall k :: j < k < from ==> cmp(e[k], e[lo]) > 0
  {
    ghost var e := Elems(mem[..], n, w);
    j := from - 1;
    var c := CompareAt(mem, n, w, j, lo, cmp);
    while c > 0
      invariant stop <= j < from && c == cmp(e[j], e[lo])
      invariant forall k :: j < k < from ==> cmp(e[k], e[lo]) > 0
      decreases j - stop
    {
      j := j - 1;
      c := CompareAt(mem, n, w, j, lo, cmp);
    }
  }

  /** After a swap: up to `i` nothing is above the pivot and from `j` on nothing is below it.  The pivot is
      whatever element `lo` holds now. */
  ghost predicate Halves(e: seq<Item>, lo: nat, hi: nat, i: int, j: int, cmp: Compare) {
    lo <= i < j <= hi < |e| && AtMost(e, lo, i + 1, e[lo], cmp) && AtLeast(e, j, hi + 1, e[lo], cmp)
  }

  /** The first swap replaces the pivot by a smaller or equal element and puts it on the far side. */
  lemma FirstSwap(e: seq<Item>, lo: nat, hi: nat, j: nat, cmp: Compare)
    requires Preorder(cmp) && lo < j <= hi < |e| && cmp(e[j], e[lo]) <= 0
    requires forall k :: j < k < hi + 1 ==> cmp(e[k], e[lo]) > 0
    ensures Halves(Exchanged(e, lo, j), lo, hi, lo, j, cmp)
  {
    var t := Exchanged(e, lo, j);
    forall k | j <= k < hi + 1 ensures cmp(t[lo], t[k]) <= 0 {
      if k > j {
        assert cmp(e[k], e[lo]) > 0 && cmp(e[lo], e[k]) <= 0;
        assert Transitive(cmp, e[j], e[lo], e[k]);
      }
    }
  }

  lemma LaterSwap(e: seq<Item>, lo: nat, hi: nat, i0: int, j0: int, i: int, j: int, cmp: Compare)
    requires Preorder(cmp) && Halves(e, lo, hi, i0, j0, cmp) && i0 < i < j < j0
    requires cmp(e[i], e[lo]) >= 0 && forall k :: i0 < k < i ==> cmp(e[k], e[lo]) < 0
    requires cmp(e[j], e[lo]) <= 0 && forall k :: j < k < j0 ==> cmp(e[k], e[lo]) > 0
    ensures Halves(Exchanged(e, i, j), lo, hi, i, j, cmp)
  {
    var t := Exchanged(e, i, j);
    forall k | lo <= k < i + 1 ensures cmp(t[k], t[lo]) <= 0 { }
    forall k | j <= k < hi + 1 ensures cmp(t[lo], t[k]) <= 0 {
      if j < k < j0 { assert cmp(e[k], e[lo]) > 0; }
      if k >= j0 { assert cmp(e[lo], e[k]) <= 0; }
    }
  }

  /** Before the first swap, or after one. */
  ghost predicate Open(e: seq<Item>, lo: nat, hi: nat, i: int, j: int, cmp: Compare) {
    lo < hi < |e| && ((i == lo - 1 && j == hi + 1) || Halves(e, lo, hi, i, j, cmp))
  }

  /** What both scans of a round, from `i0` and `j0`, have found. */
  ghost predicate Scanned(e: seq<Item>, lo: nat, hi: nat, i0: int, j0: int, i: int, j: int, cmp: Compare) {
    && lo - 1 <= i0 < i <= hi < |e| && lo <= j < j0 <= hi + 1 && (i0 < lo ==> i == lo)
    && cmp(e[i], e[lo]) >= 0 && cmp(e[j], e[lo]) <= 0
    && (forall k :: i0 < k < i ==> cmp(e[k], e[lo]) < 0)
    && (forall k :: j < k < j0 ==> cmp(e[k], e[lo]) > 0)
  }

  /** When the scans have met, `j` separates the two sides. */
  lemma Met(e: seq<Item>, lo: nat, hi: nat, i0: int, j0: int, i: int, j: int, cmp: Compare)
    requires Preorder(cmp) && Open(e, lo, hi, i0, j0, cmp) && Scanned(e, lo, hi, i0, j0, i, j, cmp) && j <= i
    ensures j < hi && AtMost(e, lo, j + 1, e[lo], cmp) && AtLeast(e, j + 1, hi + 1, e[lo], cmp)
  {
    forall k | lo <= k < j + 1 ensures cmp(e[k], e[lo]) <= 0 {
      if i0 < k < i { assert cmp(e[k], e[lo]) < 0; }
    }
    forall k | j + 1 <= k < hi + 1 ensures cmp(e[lo], e[k]) <= 0 {
      if k < j0 { assert cmp(e[k], e[lo]) > 0; }
    }
  }

  lemma NotMet(e: seq<Item>, lo: nat, hi: nat, i0: int, j0: int, i: int, j: int, cmp: Compare)
    requires Preorder(cmp) && Open(e, lo, hi, i0, j0, cmp) && Scanned(e, lo, hi, i0, j0, i, j, cmp) && i < j
    ensures Open(Exchanged(e, i, j), lo, hi, i, j, cmp)
  {
    if i0 < lo { FirstSwap(e, lo, hi, j, cmp); } else { LaterSwap(e, lo, hi, i0, j0, i, j, cmp); }
  }

  /** One round of scanning stays inside the range: the pivot stops the first round, and the elements of the
      last swap stop the later ones. */
  method Round(mem: array<Byte>, n: nat, w: nat, lo: nat, hi: nat, i0: int, j0: int, cmp: Compare)
    returns (i: int, j: int)
    requires Preorder(cmp) && mem.Length == n * w && hi < n && Open(Elems(mem[..], n, w), lo, hi, i0, j0, cmp)
    ensures Scanned(Elems(mem[..], n, w), lo, hi, i0, j0, i, j, cmp)
  {
    ghost var e := Elems(mem[..], n, w);
    i := ScanUp(mem, n, w, i0, lo, if i0 < lo then lo else j0, cmp);
    j := ScanDown(mem, n, w, j0, lo, if i0 < lo then lo else i0, cmp);
  }

  /** The swap that ends a round. */
  method SwapAcross(mem: array<Byte>, n: nat, w: nat, lo: nat, hi: nat, ghost i0: int, ghost j0: int, i: int, j: int,
    cmp: Compare)
    requires Preorder(cmp) && mem.Length == n * w && hi < n && i < j
    requires var e := Elems(mem[..], n, w); Open(e, lo, hi, i0, j0, cmp) && Scanned(e, lo, hi, i0, j0, i, j, cmp)
    modifies mem
    ensures var e := Elems(mem[..], n, w);
      Open(e, lo, hi, i, j, cmp) && Permuted(old(Elems(mem[..], n, w)), e, lo, hi + 1)
  {
    ghost var e := Elems(mem[..], n, w);
    NotMet(e, lo, hi, i0, j0, i, j, cmp);
    ExchangedPermuted(e, i, j, lo, hi + 1);
    Swap(mem, n, w, i, j);
  }

  /** One turn of the loop: the scans meet at `j`, or two elements change places. */
  method Turn(mem: array<Byte>, n: nat, w: nat, lo: nat, hi: nat, i0: int, j0: int, cmp: Compare)
    returns (met: bool, i: int, j: int)
    requires Preorder(cmp) && mem.Length == n * w && hi < n && Open(Elems(mem[..], n, w), lo, hi, i0, j0, cmp)
    modifies mem
    ensures i0 < i && lo <= j < j0
    ensures Permuted(old(Elems(mem[..], n, w)), Elems(mem[..], n, w), lo, hi + 1)
    ensures var e := Elems(mem[..], n, w);
      if met then j < hi && AtMost(e, lo, j + 1, e[lo], cmp) && AtLeast(e, j + 1, hi + 1, e[lo], cmp)
      else i < j && Open(e, lo, hi, i, j, cmp)
  {
    i, j := Round(mem, n, w, lo, hi, i0, j0, cmp);
    met := i >= j;
    if met {
      Met(Elems(mem[..], n, w), lo, hi, i0, j0, i, j, cmp);
    } else {
      SwapAcross(mem, n, w, lo, hi, i0, j0, i, j, cmp);
    }
  }

  /** qsort_part. */
  method Partition(mem: array<Byte>, n: nat, w: nat, lo: nat, hi: nat, cmp: Compare) returns (p: nat, ghost x: Item)
    requires Preorder(cmp) && mem.Length == n * w && lo < hi < n
    modifies mem
    ensures lo <= p < hi
    ensures var e := Elems(mem[..], n, w);
      && Permuted(old(Elems(mem[..], n, w)), e, lo, hi + 1)
      && AtMost(e, lo, p + 1, x, cmp) && AtLeast(e, p + 1, hi + 1, x, cmp)
  {
    ghost var e0 := Elems(mem[..], n, w);
    ghost var e := e0;
    var i: int, j: int := lo - 1, hi + 1;
    while true
      invariant e == Elems(mem[..], n, w) && Open(e, lo, hi, i, j, cmp) && Permuted(e0, e, lo, hi + 1)
      decreases j - i
    {
      var met;
      met, i, j := Turn(mem, n, w, lo, hi, i, j, cmp);
      ghost var e1 := Elems(mem[..], n, w);
      PermutedTwice(e0, e, e1, lo, hi + 1);
      e := e1;
      if met { return j, e[lo]; }
    }
  }

  // ---------- qsort_sort and qsort_r ----------

  ghost predicate Sorted(e: seq<Item>, lo: nat, hi: nat, cmp: Compare) {
    lo <= hi <= |e| && forall i, j :: lo <= i < j < hi ==> cmp(e[i], e[j]) <= 0
  }

  /** Two sorted parts on either side of `x` make a sorted whole. */
  lemma Joined(e: seq<Item>, lo: nat, p: nat, hi: nat, x: Item, cmp: Compare)
    requires Preorder(cmp) && Sorted(e, lo, p, cmp) && Sorted(e, p, hi, cmp)
    requires AtMost(e, lo, p, x, cmp) && AtLeast(e, p, hi, x, cmp)
    ensures Sorted(e, lo, hi, cmp)
  {
    forall i, j | lo <= i < j < hi ensures cmp(e[i], e[j]) <= 0 {
      if i < p <= j {
        assert cmp(e[i], x) <= 0 && cmp(x, e[j]) <= 0;
        assert Transitive(cmp, e[i], x, e[j]);
      }
    }
  }

  /** Sorting the right part leaves the left part sorted and keeps both bounds. */
  lemma LeftKept(s: seq<Item>, t: seq<Item>, lo: nat, p: nat, hi: nat, x: Item, cmp: Compare)
    requires Permuted(s, t, p, hi) && Sorted(s, lo, p, cmp) && AtMost(s, lo, p, x, cmp) && AtLeast(s, p, hi, x, cmp)
    ensures Sorted(t, lo, p, cmp) && AtMost(t, lo, p, x, cmp) && AtLeast(t, p, hi, x, cmp)
  {
    PermutedBounds(s, t, p, hi, x, cmp);
  }

  lemma RightKept(s: seq<Item>, t: seq<Item>, lo: nat, p: nat, hi: nat, x: Item, cmp: Compare)
    requires Permuted(s, t, lo, p) && AtMost(s, lo, p, x, cmp) && AtLeast(s, p, hi, x, cmp)
    ensures AtMost(t, lo, p, x, cmp) && AtLeast(t, p, hi, x, cmp)
  {
    PermutedBounds(s, t, lo, p, x, cmp);
  }

  /** One element, or any number of elements without bytes. */
  lemma NoWidth(m: seq<Byte>, n: nat, w: nat, lo: nat, hi: nat, cmp: Compare)
    requires Preorder(cmp) && |m| == n * w && lo <= hi < n && lo * w >= hi * w
    ensures Sorted(Elems(m, n, w), lo, hi + 1, cmp)
  {
    var e := Elems(m, n, w);
    if lo < hi { Apart(lo, hi, w); }
    forall i, j | lo <= i < j < hi + 1 ensures cmp(e[i], e[j]) <= 0 {
      ElemsAt(m, n, w, i);
      ElemsAt(m, n, w, j);
      assert e[i] == [] == e[j];
    }
  }

  /** qsort_sort; the addresses are compared, so that a width of zero sorts nothing. */
  method Sort(mem: array<Byte>, n: nat, w: nat, lo: nat, hi: nat, cmp: Compare)
    requires Preorder(cmp) && mem.Length == n * w && lo <= hi < n
    modifies mem
    ensures var e := Elems(mem[..], n, w);
      Permuted(old(Elems(mem[..], n, w)), e, lo, hi + 1) && Sorted(e, lo, hi + 1, cmp)
    decreases hi - lo, 1
  {
    if lo * w >= hi * w {
      NoWidth(mem[..], n, w, lo, hi, cmp);
      return;
    }
    assert lo < hi;
    SortParts(mem, n, w, lo, hi, cmp);
  }

  /** Lines 33-35. */
  method SortParts(mem: array<Byte>, n: nat, w: nat, lo: nat, hi: nat, cmp: Compare)
    requires Preorder(cmp) && mem.Length == n * w && lo < hi < n
    modifies mem
    ensures var e := Elems(mem[..], n, w);
      Permuted(old(Elems(mem[..], n, w)), e, lo, hi + 1) && Sorted(e, lo, hi + 1, cmp)
    decreases hi - lo, 0
  {
    ghost var e0 := Elems(mem[..], n, w);
    var p, x := Partition(mem, n, w, lo, hi, cmp);
    ghost var e1 := Elems(mem[..], n, w);
    Sort(mem, n, w, lo, p, cmp);
    ghost var e2 := Elems(mem[..], n, w);
    Sort(mem, n, w, p + 1, hi, cmp);
    ghost var e3 := Elems(mem[..], n, w);
    SortedWhole(e0, e1, e2, e3, lo, p + 1, hi + 1, x, cmp);
  }

  lemma SortedWhole(e0: seq<Item>, e1: seq<Item>, e2: seq<Item>, e3: seq<Item>, lo: nat, p: nat, hi: nat,
    x: Item, cmp: Compare)
    requires Preorder(cmp) && Permuted(e0, e1, lo, hi) && AtMost(e1, lo, p, x, cmp) && AtLeast(e1, p, hi, x, cmp)
    requires Permuted(e1, e2, lo, p) && Sorted(e2, lo, p, cmp)
    requires Permuted(e2, e3, p, hi) && Sorted(e3, p, hi, cmp)
    ensures Permuted(e0, e3, lo, hi) && Sorted(e3, lo, hi, cmp)
  {
    RightKept(e1, e2, lo, p, hi, x, cmp);
    LeftKept(e2, e3, lo, p, hi, x, cmp);
    Joined(e3, lo, p, hi, x, cmp);
    PermutedWider(e1, e2, lo, p, lo, hi);
    PermutedWider(e2, e3, p, hi, lo, hi);
    PermutedTwice(e0, e1, e2, lo, hi);
    PermutedTwice(e0, e2, e3, lo, hi);
  }

  /** qsort_r leaves the elements sorted and permuted, byte for byte. */
  method QsortR(mem: array<Byte>, n: nat, w: nat, cmp: Compare)
    requires Preorder(cmp) && mem.Length == n * w
    modifies mem
    ensures var e := Elems(mem[..], n, w);
      && multiset(e) == multiset(old(Elems(mem[..], n, w)))
      && forall i, j :: 0 <= i < j < n ==> cmp(e[i], e[j]) <= 0
  {
    if n == 0 || n == 1 { return; }
    ghost var e0 := Elems(mem[..], n, w);
    Sort(mem, n, w, 0, n - 1, cmp);
    ghost var e := Elems(mem[..], n, w);
    forall x ensures multiset(e)[x] == multiset(e0)[x] {
      CountMultiset(e, n, x);
      CountMultiset(e0, n, x);
      assert e[..n] == e && e0[..n] == e0;
    }
  }
}
