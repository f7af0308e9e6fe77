/** Byte-range locks (src/fs/fs.c:811-960), after fcntl() in the System Interfaces volume of
    POSIX.1-2017. */
module RangeLocks {

  import opened Errno
  import opened Options

  datatype Kind = Shared | Exclusive

  /** A process, or for the F_OFD commands an open file description. */
  datatype Owner = Process(pid: nat) | OpenFile(id: nat)

  /** A lock on `len` bytes from `start`, or to the end of the file when `len` is 0. */
  datatype Lock = Lock(owner: Owner, start: nat, len: nat, kind: Kind) {
    predicate Covers(b: nat) { start <= b && (len == 0 || b < start + len) }
  }

  /** The caller asks for a lock of some kind, or with None for unlocking. */
  datatype Request = Request(owner: Owner, start: nat, len: nat, kind: Option<Kind>) {
    predicate Covers(b: nat) { start <= b && (len == 0 || b < start + len) }
    function End(): nat { start + len }
  }

  // ---------- the conflict test ----------

  /** Lines 823-831. */
  predicate Hits(e: Lock, t: Request) {
    || e.start == t.start
    || (e.start > t.start && (t.len == 0 || e.start < t.End()))
    || (e.start < t.start && (e.len == 0 || t.start < e.start + e.len))
  }

  lemma HitsIffOverlap(e: Lock, t: Request)
    ensures Hits(e, t) <==> exists b: nat :: e.Covers(b) && t.Covers(b)
  {
    if Hits(e, t) {
      var b := if e.start < t.start then t.start else e.start;
      assert e.Covers(b) && t.Covers(b);
    }
  }

  /** Lines 816-821: another owner's lock, unless both are for reading. */
  predicate Conflicts(e: Lock, t: Request) {
    e.owner != t.owner && !(e.kind == Shared && t.kind == Some(Shared)) && Hits(e, t)
  }

  /** A request is refused exactly if another owner has a lock on one of its bytes and not both are for reading. */
  lemma RefusedBytes(s: seq<Lock>, t: Request)
    ensures (exists e :: e in s && Conflicts(e, t)) <==>
      exists e, b: nat :: e in s && e.owner != t.owner && e.Covers(b) && t.Covers(b)
                          && !(e.kind == Shared && t.kind == Some(Shared))
  {
    if e :| e in s && Conflicts(e, t) {
      HitsIffOverlap(e, t);
      var b: nat :| e.Covers(b) && t.Covers(b);
    }
    if e, b: nat :| e in s && e.owner != t.owner && e.Covers(b) && t.Covers(b)
                    && !(e.kind == Shared && t.kind == Some(Shared)) {
      HitsIffOverlap(e, t);
      assert Conflicts(e, t);
    }
  }

  // ---------- cutting the target range out of the caller's own locks ----------

  /** What stays in place of the entry (lines 863-909), and what is split off to the front.  The tests of
      l_len at lines 879 and 903 always succeed: there the entry ends behind the target. */
  function Kept(e: Lock, t: Request): seq<Lock> {
    if e.owner != t.owner then [e]
    else if e.start >= t.start && (t.len == 0 || e.start < t.End()) then
      if t.len == 0 || e.start + e.len <= t.End() then []
      else [e.(start := t.End(), len := e.len - (t.End() - e.start))]
    else if e.start < t.start && (e.len == 0 || e.start + e.len > t.start) then
      [e.(len := t.start - e.start)]
    else [e]
  }

  function SplitOff(e: Lock, t: Request): seq<Lock> {
    if e.owner == t.owner && e.start < t.start && (e.len == 0 || e.start + e.len > t.start)
      && !(t.len == 0 || e.start + e.len <= t.End())
    then [e.(start := t.End(), len := e.len - (t.End() - e.start))]
    else []
  }

  /** The comparisons at lines 866 and 889 take a lock to the end of the file for one that ends at its
      start. */
  predicate LosesTail(e: Lock, t: Request) {
    e.owner == t.owner && e.len == 0 && t.len > 0 && e.start < t.End()
  }

  /** Byte `b` of the entry survives the cut. */
  predicate Survives(e: Lock, t: Request, b: nat) {
    e.Covers(b) && (e.owner == t.owner ==> if LosesTail(e, t) then b < t.start else !t.Covers(b))
  }

  lemma CutCovers(e: Lock, t: Request, b: nat)
    ensures (exists f :: f in Kept(e, t) + SplitOff(e, t) && f.Covers(b)) <==> Survives(e, t, b)
    ensures forall f :: f in Kept(e, t) + SplitOff(e, t) ==> f.owner == e.owner && f.kind == e.kind
  {
    var s := Kept(e, t) + SplitOff(e, t);
    assert forall f :: f in s <==> (f in Kept(e, t) || f in SplitOff(e, t));
    if Survives(e, t, b) {
      if Kept(e, t) != [] && Kept(e, t)[0].Covers(b) {
        assert Kept(e, t)[0] in s;
      } else {
        assert SplitOff(e, t)[0] in s && SplitOff(e, t)[0].Covers(b);
      }
    }
  }

  /** The list after the entries of `s` have been walked: the split-off parts stand at the front, latest
      first, and the rest in place. */
  function Fronts(s: seq<Lock>, t: Request): seq<Lock> {
    if s == [] then [] else SplitOff(s[|s| - 1], t) + Fronts(s[..|s| - 1], t)
  }

  function Keeps(s: seq<Lock>, t: Request): seq<Lock> {
    if s == [] then [] else Keeps(s[..|s| - 1], t) + Kept(s[|s| - 1], t)
  }

  function CutAll(s: seq<Lock>, t: Request): seq<Lock> { Fronts(s, t) + Keeps(s, t) }

  ghost predicate IsPiece(f: Lock, e: Lock, t: Request) { f in Kept(e, t) + SplitOff(e, t) }

  lemma InConcat(a: seq<Lock>, b: seq<Lock>, f: Lock)
    ensures f in a + b <==> f in a || f in b
  {
  }

  lemma InLast(s: seq<Lock>)
    requires s != []
    ensures forall e :: e in s <==> e in s[..|s| - 1] || e == s[|s| - 1]
  {
    assert s == s[..|s| - 1] + [s[|s| - 1]];
  }

  lemma CutLast(s: seq<Lock>, t: Request, f: Lock)
    requires s != []
    ensures var e, r := s[|s| - 1], s[..|s| - 1];
      && CutAll(s, t) == SplitOff(e, t) + CutAll(r, t) + Kept(e, t)
      && (f in CutAll(s, t) <==> f in CutAll(r, t) || IsPiece(f, e, t))
  {
    var e, r := s[|s| - 1], s[..|s| - 1];
    assert CutAll(s, t) == SplitOff(e, t) + CutAll(r, t) + Kept(e, t);
    InConcat(SplitOff(e, t) + CutAll(r, t), Kept(e, t), f);
    InConcat(SplitOff(e, t), CutAll(r, t), f);
    InConcat(Kept(e, t), SplitOff(e, t), f);
  }

  /** Every entry of the result is a piece of an old one, and conversely. */
  lemma {:induction false} CutAllPieces(s: seq<Lock>, t: Request, f: Lock)
    ensures f in CutAll(s, t) <==> exists e :: e in s && IsPiece(f, e, t)
  {
    if s != [] {
      var last, r := s[|s| - 1], s[..|s| - 1];
      CutAllPieces(r, t, f);
      CutLast(s, t, f);
      InLast(s);
    }
  }

  /** Owner `o` holds a lock of kind `k` on byte `b`. */
  ghost predicate Holds(s: seq<Lock>, o: Owner, b: nat, k: Kind) {
    exists e :: e in s && e.owner == o && e.kind == k && e.Covers(b)
  }

  lemma CutAllHolds(s: seq<Lock>, t: Request, o: Owner, b: nat, k: Kind)
    ensures Holds(CutAll(s, t), o, b, k) <==> exists e :: e in s && e.owner == o && e.kind == k && Survives(e, t, b)
  {
    if Holds(CutAll(s, t), o, b, k) {
      var f :| f in CutAll(s, t) && f.owner == o && f.kind == k && f.Covers(b);
      CutAllPieces(s, t, f);
      var e :| e in s && IsPiece(f, e, t);
      CutCovers(e, t, b);
      assert Survives(e, t, b);
    }
    if exists e :: e in s && e.owner == o && e.kind == k && Survives(e, t, b) {
      var e :| e in s && e.owner == o && e.kind == k && Survives(e, t, b);
      CutCovers(e, t, b);
      var f :| f in Kept(e, t) + SplitOff(e, t) && f.Covers(b);
      CutAllPieces(s, t, f);
      assert IsPiece(f, e, t);
    }
  }

  // ---------- exclusion ----------

  ghost predicate Apart(e: Lock, f: Lock) {
    forall b: nat :: !(e.Covers(b) && f.Covers(b))
  }

  /** Two locks may stand in the list together: those of one owner do not overlap, those of different
      owners overlap only if both are for reading. */
  ghost predicate Fine(e: Lock, f: Lock) {
    Apart(e, f) || (e.owner != f.owner && e.kind == Shared && f.kind == Shared)
  }

  ghost predicate AllFine(s: seq<Lock>) {
    forall i, j :: 0 <= i < j < |s| ==> Fine(s[i], s[j])
  }

  lemma FineBoth(s: seq<Lock>, i: nat, j: nat)
    requires AllFine(s) && i < |s| && j < |s|
    ensures i == j || Fine(s[i], s[j])
  {
    if j < i { assert Fine(s[j], s[i]); }
  }

  lemma PieceFine(f: Lock, e: Lock, t: Request, g: Lock)
    requires IsPiece(f, e, t) && Fine(e, g)
    ensures Fine(f, g)
  {
    CutCovers(e, t, 0);
    forall b: nat | f.Covers(b) ensures e.Covers(b) { CutCovers(e, t, b); }
  }

  lemma PiecesApart(e: Lock, t: Request)
    ensures forall f, g :: f in Kept(e, t) && g in SplitOff(e, t) ==> Apart(f, g)
  {
  }

  lemma AllFineAround(pre: seq<Lock>, s: seq<Lock>, post: seq<Lock>)
    requires AllFine(s) && |pre| <= 1 && |post| <= 1
    requires forall p, e :: p in pre + post && e in s ==> Fine(p, e)
    requires forall p, q :: p in pre && q in post ==> Fine(p, q)
    ensures AllFine(pre + s + post)
  {
    var r := pre + s + post;
    forall i, j | 0 <= i < j < |r| ensures Fine(r[i], r[j]) {
      assert i < |pre| ==> r[i] in pre + post;
      assert j >= |pre| + |s| ==> r[j] in post && r[j] in pre + post;
      assert |pre| <= i < |pre| + |s| ==> r[i] == s[i - |pre|] && r[i] in s;
      assert |pre| <= j < |pre| + |s| ==> r[j] == s[j - |pre|] && r[j] in s;
    }
  }

  lemma {:induction false} CutAllFine(s: seq<Lock>, t: Request)
    requires AllFine(s)
    ensures AllFine(CutAll(s, t))
  {
    if s != [] {
      var e, r := s[|s| - 1], s[..|s| - 1];
      CutAllFine(r, t);
      forall p, q | p in SplitOff(e, t) + Kept(e, t) && q in CutAll(r, t) ensures Fine(p, q) {
        CutAllPieces(r, t, q);
        var o :| o in r && IsPiece(q, o, t);
        var i :| 0 <= i < |r| && r[i] == o;
        assert Fine(s[i], s[|s| - 1]);
        PieceFine(q, o, t, e);
        assert IsPiece(p, e, t);
        PieceFine(p, e, t, q);
      }
      PiecesApart(e, t);
      AllFineAround(SplitOff(e, t), CutAll(r, t), Kept(e, t));
      CutLast(s, t, e);
    }
  }

  // ---------- the whole call ----------

  /** The list a call leaves behind when there is no conflict. */
  function Granted(s: seq<Lock>, t: Request): seq<Lock> {
    (if t.kind.Some? then [Lock(t.owner, t.start, t.len, t.kind.value)] else []) + CutAll(s, t)
  }

  lemma GrantedFine(s: seq<Lock>, t: Request)
    requires AllFine(s) && forall e :: e in s ==> !Conflicts(e, t)
    ensures AllFine(Granted(s, t))
  {
    CutAllFine(s, t);
    if t.kind.Some? {
      var new' := Lock(t.owner, t.start, t.len, t.kind.value);
      forall f | f in CutAll(s, t) ensures Fine(new', f) {
        CutAllPieces(s, t, f);
        var e :| e in s && IsPiece(f, e, t);
        NewFine(e, t, f, new');
      }
      AllFineAround([new'], CutAll(s, t), []);
      assert [new'] + CutAll(s, t) + [] == Granted(s, t);
    } else {
      assert Granted(s, t) == CutAll(s, t);
    }
  }

  lemma NewFine(e: Lock, t: Request, f: Lock, new': Lock)
    requires !Conflicts(e, t) && IsPiece(f, e, t) && t.kind.Some? && new' == Lock(t.owner, t.start, t.len, t.kind.value)
    ensures Fine(new', f)
  {
    CutCovers(e, t, 0);
    HitsIffOverlap(e, t);
    forall b: nat | new'.Covers(b) && f.Covers(b)
      ensures e.owner != t.owner && e.kind == Shared && t.kind == Some(Shared)
    {
      CutCovers(e, t, b);
      assert e.Covers(b) && t.Covers(b);
    }
  }

  /** What the code does to every owner's locks, byte by byte. */
  lemma GrantedHolds(s: seq<Lock>, t: Request, o: Owner, b: nat, k: Kind)
    ensures Holds(Granted(s, t), o, b, k) <==>
      || (o == t.owner && t.Covers(b) && t.kind == Some(k))
      || exists e :: e in s && e.owner == o && e.kind == k && Survives(e, t, b)
  {
    CutAllHolds(s, t, o, b, k);
    if t.kind.Some? {
      var new' := Lock(t.owner, t.start, t.len, t.kind.value);
      HoldsCons(new', CutAll(s, t), o, b, k);
    } else {
      assert Granted(s, t) == CutAll(s, t);
    }
  }

  lemma HoldsCons(x: Lock, s: seq<Lock>, o: Owner, b: nat, k: Kind)
    ensures Holds([x] + s, o, b, k) <==> (x.owner == o && x.kind == k && x.Covers(b)) || Holds(s, o, b, k)
  {
    if Holds(s, o, b, k) {
      var e :| e in s && e.owner == o && e.kind == k && e.Covers(b);
      assert e in [x] + s;
    }
    assert x in [x] + s;
  }

  /** What the call promises: the caller's locks change on the target range and nowhere else, and nobody
      else's change. */
  ghost predicate Promised(s: seq<Lock>, t: Request, r: seq<Lock>) {
    forall o: Owner, b: nat, k: Kind :: Holds(r, o, b, k) <==> PromisedAt(s, t, o, b, k)
  }

  ghost predicate PromisedAt(s: seq<Lock>, t: Request, o: Owner, b: nat, k: Kind) {
    if o == t.owner && t.Covers(b) then t.kind == Some(k) else Holds(s, o, b, k)
  }

  lemma GrantedAt(s: seq<Lock>, t: Request, o: Owner, b: nat, k: Kind)
    requires forall e :: e in s ==> !LosesTail(e, t)
    ensures Holds(Granted(s, t), o, b, k) <==> PromisedAt(s, t, o, b, k)
  {
    GrantedHolds(s, t, o, b, k);
  }

  /** Two locks of one owner on one byte are the same entry. */
  lemma OneLock(s: seq<Lock>, e: Lock, f: Lock, b: nat)
    requires AllFine(s) && e in s && f in s && e.owner == f.owner && e.Covers(b) && f.Covers(b)
    ensures e == f
  {
    var i, j :| 0 <= i < |s| && 0 <= j < |s| && s[i] == e && s[j] == f;
    FineBoth(s, i, j);
  }

  /** The call keeps its promise exactly when the target reaches to the end of the file, or no lock of the
      caller's that reaches there starts before the end of the target. */
  lemma PromiseIff(s: seq<Lock>, t: Request)
    requires AllFine(s)
    ensures Promised(s, t, Granted(s, t)) <==> forall e :: e in s ==> !LosesTail(e, t)
  {
    if forall e :: e in s ==> !LosesTail(e, t) {
      forall o: Owner, b: nat, k: Kind ensures Holds(Granted(s, t), o, b, k) <==> PromisedAt(s, t, o, b, k) {
        GrantedAt(s, t, o, b, k);
      }
    } else {
      var e :| e in s && LosesTail(e, t);
      var b := t.End();
      assert Holds(s, e.owner, b, e.kind) && PromisedAt(s, t, e.owner, b, e.kind);
      GrantedHolds(s, t, e.owner, b, e.kind);
      forall f | f in s && f.owner == e.owner && f.kind == e.kind ensures !Survives(f, t, b) {
        if f.Covers(b) { OneLock(s, e, f, b); }
      }
      assert !Holds(Granted(s, t), e.owner, b, e.kind);
    }
  }

  /** A lock to the end of the file, and the release of its first ten bytes: everything is released. */
  lemma TailLost()
    ensures var s, t := [Lock(Process(1), 0, 0, Shared)], Request(Process(1), 0, 10, None);
      Granted(s, t) == [] && PromisedAt(s, t, Process(1), 10, Shared) && !Promised(s, t, Granted(s, t))
  {
    var s, t := [Lock(Process(1), 0, 0, Shared)], Request(Process(1), 0, 10, None);
    assert s[..0] == [] && s[0] in s && LosesTail(s[0], t);
    assert Fronts(s, t) == [] && Keeps(s, t) == [];
    PromiseIff(s, t);
    assert Holds(s, Process(1), 10, Shared);
  }

  /** No owner holds an exclusive lock on a byte that another owner has locked. */
  lemma Exclusion(s: seq<Lock>, b: nat, o: Owner, p: Owner, k: Kind)
    requires AllFine(s) && Holds(s, o, b, Exclusive) && Holds(s, p, b, k)
    ensures o == p && k == Exclusive
  {
    var e :| e in s && e.owner == o && e.kind == Exclusive && e.Covers(b);
    var f :| f in s && f.owner == p && f.kind == k && f.Covers(b);
    var i, j :| 0 <= i < |s| && 0 <= j < |s| && s[i] == e && s[j] == f;
    FineBoth(s, i, j);
  }

  // ---------- the range a caller names ----------

  const OFF_MAX: int := 0x7FFF_FFFF_FFFF_FFFF

  datatype Range = Range(start: nat, len: nat) | Bad(err: int)

  /** Lines 950-960, with `start` already relative to the start of the file. */
  function Normalized(start: int, len: int): Range {
    if !(-OFF_MAX - 1 <= start + len <= OFF_MAX) then Bad(-EOVERFLOW)
    else if start < 0 || start + len < 0 then Bad(-EINVAL)
    else if len < 0 then Range(start + len, -len)
    else Range(start, len)
  }

  /** A positive length counts up from `start`, a negative one down from it, and zero means to the end of
      the file; a range that would begin before the file is refused. */
  lemma NormalizedCovers(start: int, len: int)
    requires -OFF_MAX - 1 <= start <= OFF_MAX && -OFF_MAX - 1 <= len <= OFF_MAX
    ensures Normalized(start, len).Range? <==> start >= 0 && 0 <= start + len <= OFF_MAX
    ensures Normalized(start, len).Range? ==> forall b: nat, o: Owner ::
      var r := Normalized(start, len);
      Request(o, r.start, r.len, None).Covers(b) <==>
        if len == 0 then start <= b else if len > 0 then start <= b < start + len else start + len <= b < start
  {
  }

  class LockTable {
    var locks: seq<Lock>

    ghost predicate Valid()
      reads this
    {
      AllFine(locks)
    }

    constructor ()
      ensures Valid() && locks == []
    {
      locks := [];
    }

    /** fcntl_lock_get_lock: the first entry in the way. */
    method GetLock(t: Request) returns (r: Option<Lock>)
      ensures r.None? <==> forall e :: e in locks ==> !Conflicts(e, t)
      ensures r.Some? ==> exists i ::
        && 0 <= i < |locks| && r.value == locks[i] && Conflicts(locks[i], t)
        && forall j :: 0 <= j < i ==> !Conflicts(locks[j], t)
      ensures r.Some? <==> exists e, b: nat ::
        && e in locks && e.owner != t.owner && e.Covers(b) && t.Covers(b)
        && !(e.kind == Shared && t.kind == Some(Shared))
      ensures r.Some? ==>
        && r.value in locks && r.value.owner != t.owner
        && !(r.value.kind == Shared && t.kind == Some(Shared)) && exists b: nat :: r.value.Covers(b) && t.Covers(b)
    {
      RefusedBytes(locks, t);
      var i := 0;
      while i < |locks|
        invariant i <= |locks| && forall j :: 0 <= j < i ==> !Conflicts(locks[j], t)
      {
        if Conflicts(locks[i], t) {
          HitsIffOverlap(locks[i], t);
          return Some(locks[i]);
        }
        i := i + 1;
      }
      r := None;
    }

    /** Lines 853-909: remove, trim or split entry `i`, and go on to `next`. */
    method CutEntry(i: nat, t: Request) returns (next: nat)
      requires i < |locks|
      modifies this
      ensures var e := old(locks)[i];
        && locks == SplitOff(e, t) + old(locks)[..i] + Kept(e, t) + old(locks)[i + 1..]
        && next == i + |SplitOff(e, t)| + |Kept(e, t)|
    {
      var e := locks[i];
      next := i + 1;
      if e.owner == t.owner {
        if e.start >= t.start && (t.len == 0 || e.start < t.End()) {
          if t.len == 0 || e.start + e.len <= t.End() {
            locks := locks[..i] + locks[i + 1..];
            next := i;
          } else {
            locks := locks[i := e.(start := t.End(), len := e.len - (t.End() - e.start))];
          }
        } else if e.start < t.start && (e.len == 0 || e.start + e.len > t.start) {
          locks := locks[i := e.(len := t.start - e.start)];
          if !(t.len == 0 || e.start + e.len <= t.End()) {
            locks := [e.(start := t.End(), len := e.len - (t.End() - e.start))] + locks;
            next := next + 1;
          }
        }
      }
    }

    /** One turn of the walk: `n` entries of the list `s` were done, and then one more. */
    method CutNext(i: nat, t: Request, ghost s: seq<Lock>, ghost n: nat) returns (next: nat)
      requires n < |s| && Walked(locks, s, n, t, i)
      modifies this
      ensures Walked(locks, s, n + 1, t, next)
    {
      WalkOne(s, n, t, locks);
      next := CutEntry(i, t);
    }

    /** Lines 852-910: walk the list. */
    method CutOut(t: Request)
      modifies this
      ensures locks == CutAll(old(locks), t)
    {
      ghost var s, n: nat := locks, 0;
      var i: nat := 0;
      assert s[..0] == [] && [] + s[0..] == s;
      while i < |locks|
        invariant Walked(locks, s, n, t, i)
        decreases |s| - n
      {
        i := CutNext(i, t, s, n);
        n := n + 1;
      }
      WalkedAll(locks, s, n, t, i);
    }

    /** fcntl_lock_add_lock: fails on a conflict, else gives the caller exactly what Granted says. */
    method AddLock(t: Request) returns (err: int)
      requires Valid()
      modifies this
      ensures Valid()
      ensures err == 0 || err == -EAGAIN
      ensures err == 0 <==> forall e :: e in old(locks) ==> !Conflicts(e, t)
      ensures err != 0 <==> exists e, b: nat ::
        && e in old(locks) && e.owner != t.owner && e.Covers(b) && t.Covers(b)
        && !(e.kind == Shared && t.kind == Some(Shared))
      ensures locks == if err == 0 then Granted(old(locks), t) else old(locks)
    {
      var c := GetLock(t);
      if c.Some? { return -EAGAIN; }
      GrantedFine(locks, t);
      CutOut(t);
      if t.kind.Some? {
        locks := [Lock(t.owner, t.start, t.len, t.kind.value)] + locks;
      } else {
        assert [] + locks == locks;
      }
      err := 0;
    }
  }

  /** The walk has done `n` entries of the list `s` and stands at place `i`. */
  ghost predicate Walked(locks: seq<Lock>, s: seq<Lock>, n: nat, t: Request, i: nat) {
    n <= |s| && i == |CutAll(s[..n], t)| && locks == CutAll(s[..n], t) + s[n..]
  }

  lemma WalkedAll(locks: seq<Lock>, s: seq<Lock>, n: nat, t: Request, i: nat)
    requires Walked(locks, s, n, t, i) && i >= |locks|
    ensures locks == CutAll(s, t)
  {
    assert s[..n] == s;
  }

  /** One entry further in the walk. */
  lemma WalkOne(s: seq<Lock>, n: nat, t: Request, locks: seq<Lock>)
    requires n < |s| && locks == CutAll(s[..n], t) + s[n..]
    ensures var i := |CutAll(s[..n], t)|;
      && locks[i] == s[n]
      && SplitOff(s[n], t) + locks[..i] + Kept(s[n], t) + locks[i + 1..] == CutAll(s[..n + 1], t) + s[n + 1..]
      && |CutAll(s[..n + 1], t)| == i + |SplitOff(s[n], t)| + |Kept(s[n], t)|
  {
    var done := CutAll(s[..n], t);
    CutLast(s[..n + 1], t, s[n]);
    assert s[..n + 1][..n] == s[..n];
    assert locks[..|done|] == done && locks[|done| + 1..] == s[n + 1..];
  }
}
