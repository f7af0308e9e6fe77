/** Copy-on-write fork (src/kernel_fork.c) refines eager copying of every private page. */
module CowFork {
  import opened Numbers

  /** A page of a process. */
  datatype Slot = Slot(pid: nat, page: nat)

  /** A present page-table entry: the frame and the two writable bits.  `forkWritable` is the free
      PTE bit that remembers a writable page while it is shared. */
  datatype Pte = Pte(frame: nat, writable: bool, forkWritable: bool)

  /** A page frame in use: contents and reference count. */
  datatype Frame = Frame(data: seq<Byte>, refs: nat)

  /** User pages lie below the stack top 0xD0000000, in pages of 4096 bytes. */
  const PAGES: nat := 0xD0000

  // ---------- the specification: eager copies ----------

  datatype Page = Page(data: seq<Byte>, writable: bool)

  type Memory = map<Slot, Page>

  /** The pages of the parent below `limit` are copied to the child. */
  function Copied(m: Memory, parent: nat, child: nat, limit: nat): Memory {
    if limit == 0 then m
    else
      var now, x := Copied(m, parent, child, limit - 1), Slot(parent, limit - 1);
      if x in m then now[Slot(child, limit - 1) := m[x]] else now
  }

  /** Copying touches the pages of the child and nothing else. */
  lemma {:induction false} CopiedIs(m: Memory, parent: nat, child: nat, limit: nat, x: Slot)
    requires parent != child && forall x :: x in m ==> x.pid != child
    ensures x.pid != child ==> (x in Copied(m, parent, child, limit) <==> x in m)
    ensures x.pid != child && x in m ==> Copied(m, parent, child, limit)[x] == m[x]
    ensures x.pid == child ==>
      (x in Copied(m, parent, child, limit) <==> x.page < limit && Slot(parent, x.page) in m)
    ensures x.pid == child && x in Copied(m, parent, child, limit) ==>
      Copied(m, parent, child, limit)[x] == m[Slot(parent, x.page)]
  {
    if limit > 0 { CopiedIs(m, parent, child, limit - 1, x); }
  }

  function Written(m: Memory, x: Slot, at: nat, b: Byte): Memory
    requires x in m && at < |m[x].data|
  {
    m[x := m[x].(data := m[x].data[at := b])]
  }

  datatype Op =
    | Add(x: Slot, data: seq<Byte>, writable: bool)
    | Remove(x: Slot)
    | Put(x: Slot, at: nat, b: Byte)
    | Clone(parent: nat, child: nat)

  /** One operation on eagerly copied memory; an operation that does not apply changes nothing. */
  function Next(m: Memory, op: Op): Memory {
    match op
    case Add(x, data, writable) => if x in m || x.page >= PAGES then m else m[x := Page(data, writable)]
    case Remove(x) => m - {x}
    case Put(x, at, b) => if x in m && at < |m[x].data| && m[x].writable then Written(m, x, at, b) else m
    case Clone(parent, child) =>
      if parent != child && forall x :: x in m ==> x.pid != child then Copied(m, parent, child, PAGES) else m
  }

  /** What each operation does to page `y`. */
  lemma Effect(m: Memory, op: Op, y: Slot)
    ensures op.Add? && op.x !in m && op.x.page < PAGES ==>
      op.x in Next(m, op) && Next(m, op)[op.x] == Page(op.data, op.writable)
    ensures op.Remove? ==> op.x !in Next(m, op)
    ensures op.Put? && op.x in m && m[op.x].writable && op.at < |m[op.x].data| ==>
      var p, q := m[op.x], Next(m, op)[op.x];
      && q.writable && |q.data| == |p.data| && q.data[op.at] == op.b
      && forall i :: 0 <= i < |p.data| && i != op.at ==> q.data[i] == p.data[i]
    ensures op.Put? && op.x in m && !m[op.x].writable ==> Next(m, op) == m
    ensures op.Clone? && op.parent != op.child && (forall x :: x in m ==> x.pid != op.child) && y.pid == op.child ==>
      && (y in Next(m, op) <==> y.page < PAGES && Slot(op.parent, y.page) in m)
      && (y in Next(m, op) ==> Next(m, op)[y] == m[Slot(op.parent, y.page)])
    ensures Foreign(op, y.pid) || (!op.Clone? && op.x != y) ==>
      (y in Next(m, op) <==> y in m) && (y in m ==> Next(m, op)[y] == m[y])
  {
    if op.Clone? && op.parent != op.child && forall x :: x in m ==> x.pid != op.child {
      CopiedIs(m, op.parent, op.child, PAGES, y);
    }
  }

  /** The operation is another process's own. */
  predicate Foreign(op: Op, pid: nat) { if op.Clone? then op.child != pid else op.x.pid != pid }

  /** What a process sees changes by its own operations only, whatever it shares with others. */
  lemma {:induction false} Isolated(m: Memory, ops: seq<Op>, y: Slot)
    requires forall i :: 0 <= i < |ops| ==> Foreign(ops[i], y.pid)
    ensures (y in Run(m, ops) <==> y in m) && (y in m ==> Run(m, ops)[y] == m[y])
  {
    if ops != [] {
      var n := |ops| - 1;
      Isolated(m, ops[..n], y);
      Effect(Run(m, ops[..n]), ops[n], y);
    }
  }

  function Run(m: Memory, ops: seq<Op>): Memory {
    if ops == [] then m else Next(Run(m, ops[..|ops| - 1]), ops[|ops| - 1])
  }

  lemma RunOne(m: Memory, ops: seq<Op>, i: nat)
    requires i < |ops|
    ensures Run(m, ops[..i + 1]) == Next(Run(m, ops[..i]), ops[i])
  {
    assert ops[..i + 1][..i] == ops[..i];
  }

  // ---------- the mechanism ----------

  /** The entries that map a frame. */
  ghost function Mappers(ptes: map<Slot, Pte>, f: nat): set<Slot> {
    set x | x in ptes && ptes[x].frame == f
  }

  ghost predicate FrameOk(ptes: map<Slot, Pte>, frames: map<nat, Frame>, f: nat)
    requires f in frames
  {
    frames[f].refs == |Mappers(ptes, f)| > 0
  }

  ghost predicate EntryOk(ptes: map<Slot, Pte>, frames: map<nat, Frame>, x: Slot)
    requires x in ptes
  {
    && ptes[x].frame in frames
    && !(ptes[x].writable && ptes[x].forkWritable)
    && (ptes[x].writable ==> Mappers(ptes, ptes[x].frame) == {x})
  }

  /** A frame's count is the number of entries that map it, and no frame mapped twice has a writable
      entry. */
  ghost predicate Ok(ptes: map<Slot, Pte>, frames: map<nat, Frame>) {
    && (forall f :: f in frames ==> FrameOk(ptes, frames, f))
    && (forall x :: x in ptes ==> EntryOk(ptes, frames, x))
  }

  /** What the processes see. */
  ghost function Abs(ptes: map<Slot, Pte>, frames: map<nat, Frame>): (m: Memory)
    requires Ok(ptes, frames)
    ensures m.Keys == ptes.Keys
  {
    map x | x in ptes :: Page(frames[ptes[x].frame].data, ptes[x].writable || ptes[x].forkWritable)
  }

  /** Some frame number is free. */
  lemma FreeFrame(s: set<nat>) returns (f: nat)
    ensures forall g :: g in s ==> g < f
  {
    f := 0;
    if s != {} {
      var g :| g in s;
      var h := FreeFrame(s - {g});
      f := if g < h then h else g + 1;
      forall x | x in s ensures x < f { assert x == g || x in s - {g}; }
    }
  }

  /** pffree: drop one reference. */
  function Released(frames: map<nat, Frame>, f: nat): map<nat, Frame>
    requires f in frames && frames[f].refs > 0
  {
    if frames[f].refs == 1 then frames - {f} else frames[f := frames[f].(refs := frames[f].refs - 1)]
  }

  lemma MappersPut(ptes: map<Slot, Pte>, x: Slot, e: Pte, f: nat)
    ensures Mappers(ptes[x := e], f) == if e.frame == f then Mappers(ptes, f) + {x} else Mappers(ptes, f) - {x}
  {
  }

  lemma MappersDrop(ptes: map<Slot, Pte>, x: Slot, f: nat)
    ensures Mappers(ptes - {x}, f) == Mappers(ptes, f) - {x}
  {
  }

  /** A new page on a frame of its own. */
  lemma FreshFrames(ptes: map<Slot, Pte>, frames: map<nat, Frame>, x: Slot, e: Pte, data: seq<Byte>, f: nat)
    requires Ok(ptes, frames) && x !in ptes && e.frame !in frames && (f in frames || f == e.frame)
    ensures FrameOk(ptes[x := e], frames[e.frame := Frame(data, 1)], f)
  {
    MappersPut(ptes, x, e, f);
    if f == e.frame {
      forall y | y in ptes ensures ptes[y].frame != f { assert EntryOk(ptes, frames, y); }
      assert Mappers(ptes, f) == {};
    } else {
      assert FrameOk(ptes, frames, f) && x !in Mappers(ptes, f);
    }
  }

  lemma FreshEntries(ptes: map<Slot, Pte>, frames: map<nat, Frame>, x: Slot, e: Pte, data: seq<Byte>, y: Slot)
    requires Ok(ptes, frames) && x !in ptes && e.frame !in frames && !(e.writable && e.forkWritable)
    requires y in ptes || y == x
    ensures EntryOk(ptes[x := e], frames[e.frame := Frame(data, 1)], y)
  {
    MappersPut(ptes, x, e, ptes[x := e][y].frame);
    if y != x {
      assert EntryOk(ptes, frames, y);
    } else {
      forall z | z in ptes ensures ptes[z].frame != e.frame { assert EntryOk(ptes, frames, z); }
    }
  }

  lemma FreshAbs(ptes: map<Slot, Pte>, frames: map<nat, Frame>, x: Slot, e: Pte, data: seq<Byte>)
    requires Ok(ptes, frames) && x !in ptes && e.frame !in frames
    requires Ok(ptes[x := e], frames[e.frame := Frame(data, 1)])
    ensures Abs(ptes[x := e], frames[e.frame := Frame(data, 1)])
         == Abs(ptes, frames)[x := Page(data, e.writable || e.forkWritable)]
  {
    forall y | y in ptes ensures ptes[y].frame in frames { assert EntryOk(ptes, frames, y); }
  }

  lemma PutFresh(ptes: map<Slot, Pte>, frames: map<nat, Frame>, x: Slot, e: Pte, data: seq<Byte>)
    requires Ok(ptes, frames) && x !in ptes && e.frame !in frames && !(e.writable && e.forkWritable)
    ensures var ptes', frames' := ptes[x := e], frames[e.frame := Frame(data, 1)];
      Ok(ptes', frames') && Abs(ptes', frames') == Abs(ptes, frames)[x := Page(data, e.writable || e.forkWritable)]
  {
    var ptes', frames' := ptes[x := e], frames[e.frame := Frame(data, 1)];
    forall f | f in frames' ensures FrameOk(ptes', frames', f) { FreshFrames(ptes, frames, x, e, data, f); }
    forall y | y in ptes' ensures EntryOk(ptes', frames', y) { FreshEntries(ptes, frames, x, e, data, y); }
    FreshAbs(ptes, frames, x, e, data);
  }

  lemma DropFrames(ptes: map<Slot, Pte>, frames: map<nat, Frame>, x: Slot, f: nat)
    requires Ok(ptes, frames) && x in ptes && ptes[x].frame in frames && frames[ptes[x].frame].refs > 0
    requires f in Released(frames, ptes[x].frame)
    ensures FrameOk(ptes - {x}, Released(frames, ptes[x].frame), f)
  {
    MappersDrop(ptes, x, f);
    assert FrameOk(ptes, frames, f);
    assert x in Mappers(ptes, f) <==> f == ptes[x].frame;
  }

  lemma TwoOf(s: set<Slot>, x: Slot, y: Slot)
    requires x in s && y in s && x != y
    ensures |s| >= 2
  {
    assert y in s - {x} && |s - {x}| == |s| - 1;
  }

  lemma DropEntries(ptes: map<Slot, Pte>, frames: map<nat, Frame>, x: Slot, y: Slot)
    requires Ok(ptes, frames) && x in ptes && ptes[x].frame in frames && frames[ptes[x].frame].refs > 0
    requires y in ptes && y != x
    ensures EntryOk(ptes - {x}, Released(frames, ptes[x].frame), y)
  {
    var f := ptes[y].frame;
    assert EntryOk(ptes, frames, y);
    MappersDrop(ptes, x, f);
    if f == ptes[x].frame {
      assert FrameOk(ptes, frames, f);
      TwoOf(Mappers(ptes, f), x, y);
    }
  }

  lemma Drop(ptes: map<Slot, Pte>, frames: map<nat, Frame>, x: Slot)
    requires Ok(ptes, frames) && x in ptes
    ensures ptes[x].frame in frames && frames[ptes[x].frame].refs > 0
    ensures var ptes', frames' := ptes - {x}, Released(frames, ptes[x].frame);
      Ok(ptes', frames') && Abs(ptes', frames') == Abs(ptes, frames) - {x}
  {
    var g := ptes[x].frame;
    assert EntryOk(ptes, frames, x) && FrameOk(ptes, frames, g);
    var ptes', frames' := ptes - {x}, Released(frames, g);
    forall f | f in frames' ensures FrameOk(ptes', frames', f) { DropFrames(ptes, frames, x, f); }
    forall y | y in ptes' ensures EntryOk(ptes', frames', y) { DropEntries(ptes, frames, x, y); }
    DropAbs(ptes, frames, x);
  }

  lemma DropAbs(ptes: map<Slot, Pte>, frames: map<nat, Frame>, x: Slot)
    requires Ok(ptes, frames) && x in ptes && ptes[x].frame in frames && frames[ptes[x].frame].refs > 0
    requires Ok(ptes - {x}, Released(frames, ptes[x].frame))
    ensures Abs(ptes - {x}, Released(frames, ptes[x].frame)) == Abs(ptes, frames) - {x}
  {
    forall y | y in ptes - {x} ensures (ptes - {x})[y].frame in Released(frames, ptes[x].frame) {
      assert EntryOk(ptes - {x}, Released(frames, ptes[x].frame), y);
    }
  }

  /** A second entry for a frame none of whose entries is writable. */
  lemma PutShared(ptes: map<Slot, Pte>, frames: map<nat, Frame>, x: Slot, y: Slot)
    requires Ok(ptes, frames) && x in ptes && y !in ptes && !ptes[x].writable
    ensures ptes[x].frame in frames
    ensures var f := ptes[x].frame;
      var ptes', frames' := ptes[y := ptes[x]], frames[f := frames[f].(refs := frames[f].refs + 1)];
      Ok(ptes', frames') && Abs(ptes', frames') == Abs(ptes, frames)[y := Abs(ptes, frames)[x]]
  {
    var g := ptes[x].frame;
    assert EntryOk(ptes, frames, x) && FrameOk(ptes, frames, g);
    var ptes', frames' := ptes[y := ptes[x]], frames[g := frames[g].(refs := frames[g].refs + 1)];
    forall f | f in frames' ensures FrameOk(ptes', frames', f) { SharedFrames(ptes, frames, x, y, f); }
    forall z | z in ptes' ensures EntryOk(ptes', frames', z) { SharedEntries(ptes, frames, x, y, z); }
  }

  lemma SharedFrames(ptes: map<Slot, Pte>, frames: map<nat, Frame>, x: Slot, y: Slot, f: nat)
    requires Ok(ptes, frames) && x in ptes && y !in ptes && ptes[x].frame in frames && f in frames
    ensures var g := ptes[x].frame; FrameOk(ptes[y := ptes[x]], frames[g := frames[g].(refs := frames[g].refs + 1)], f)
  {
    MappersPut(ptes, y, ptes[x], f);
    assert FrameOk(ptes, frames, f) && y !in Mappers(ptes, f);
  }

  lemma SharedEntries(ptes: map<Slot, Pte>, frames: map<nat, Frame>, x: Slot, y: Slot, z: Slot)
    requires Ok(ptes, frames) && x in ptes && y !in ptes && !ptes[x].writable && ptes[x].frame in frames
    requires z in ptes || z == y
    ensures var g := ptes[x].frame; EntryOk(ptes[y := ptes[x]], frames[g := frames[g].(refs := frames[g].refs + 1)], z)
  {
    var w := if z == y then x else z;
    assert EntryOk(ptes, frames, w) && EntryOk(ptes, frames, x);
    MappersPut(ptes, y, ptes[x], ptes[w].frame);
    assert y !in Mappers(ptes, ptes[w].frame);
    if ptes[w].frame == ptes[x].frame { assert x in Mappers(ptes, ptes[w].frame); }
  }

  /** Changing the bits of an entry so that the page keeps its rights and gains no write access. */
  lemma Protect(ptes: map<Slot, Pte>, frames: map<nat, Frame>, x: Slot)
    requires Ok(ptes, frames) && x in ptes && ptes[x].writable
    ensures var ptes' := ptes[x := ptes[x].(writable := false, forkWritable := true)];
      Ok(ptes', frames) && Abs(ptes', frames) == Abs(ptes, frames)
  {
    var e := ptes[x].(writable := false, forkWritable := true);
    var ptes' := ptes[x := e];
    assert EntryOk(ptes, frames, x);
    forall f | f in frames ensures FrameOk(ptes', frames, f) {
      MappersPut(ptes, x, e, f);
      assert FrameOk(ptes, frames, f);
      assert Mappers(ptes', f) == Mappers(ptes, f);
    }
    forall y | y in ptes' ensures EntryOk(ptes', frames, y) {
      assert EntryOk(ptes, frames, y);
      assert Mappers(ptes', ptes[y].frame) == Mappers(ptes, ptes[y].frame);
    }
  }

  /** Storing through a writable entry changes no other page. */
  lemma Store(ptes: map<Slot, Pte>, frames: map<nat, Frame>, x: Slot, data: seq<Byte>)
    requires Ok(ptes, frames) && x in ptes && ptes[x].writable
    ensures ptes[x].frame in frames
    ensures var f := ptes[x].frame;
      var frames' := frames[f := frames[f].(data := data)];
      Ok(ptes, frames') && Abs(ptes, frames') == Abs(ptes, frames)[x := Page(data, true)]
  {
    var g := ptes[x].frame;
    assert EntryOk(ptes, frames, x) && Mappers(ptes, g) == {x};
    var frames' := frames[g := frames[g].(data := data)];
    forall f | f in frames' ensures FrameOk(ptes, frames', f) { assert FrameOk(ptes, frames, f); }
    forall y | y in ptes ensures EntryOk(ptes, frames', y) && (y != x ==> ptes[y].frame != g) {
      assert EntryOk(ptes, frames, y);
      if ptes[y].frame == g { assert y in Mappers(ptes, g); }
    }
  }

  lemma PutBack<V>(m: map<Slot, V>, x: Slot, v: V)
    ensures (m - {x})[x := v] == m[x := v]
    ensures x in m ==> m[x := m[x]] == m
  {
  }

  lemma SwapOrder(frames: map<nat, Frame>, g: nat, f: nat, data: seq<Byte>)
    requires g in frames && frames[g].refs > 0 && f !in frames
    ensures Released(frames[f := Frame(data, 1)], g) == Released(frames, g)[f := Frame(data, 1)]
  {
  }

  /** A shared page gets a frame of its own; nobody sees a difference. */
  lemma Duplicate(ptes: map<Slot, Pte>, frames: map<nat, Frame>, x: Slot, f: nat)
    requires Ok(ptes, frames) && x in ptes && ptes[x].forkWritable && f !in frames
    ensures ptes[x].frame in frames && frames[ptes[x].frame].refs > 0
    ensures var g := ptes[x].frame;
      var ptes', frames' := ptes[x := Pte(f, true, false)], Released(frames[f := Frame(frames[g].data, 1)], g);
      Ok(ptes', frames') && Abs(ptes', frames') == Abs(ptes, frames)
  {
    var g, m := ptes[x].frame, Abs(ptes, frames);
    Drop(ptes, frames, x);
    var data := frames[g].data;
    PutFresh(ptes - {x}, Released(frames, g), x, Pte(f, true, false), data);
    SwapOrder(frames, g, f, data);
    PutBack(ptes, x, Pte(f, true, false));
    assert m[x] == Page(data, true);
    PutBack(m, x, m[x]);
  }

  class Machine {
    var ptes: map<Slot, Pte>
    var frames: map<nat, Frame>

    ghost predicate Valid()
      reads this
    {
      Ok(ptes, frames) && forall x :: x in ptes ==> x.page < PAGES
    }

    ghost function Seen(): (m: Memory)
      requires Valid()
      reads this
      ensures m.Keys == ptes.Keys
    {
      Abs(ptes, frames)
    }

    constructor ()
      ensures Valid() && Seen() == map[]
    {
      ptes, frames := map[], map[];
    }

    /** pfalloc: any frame that is not in use. */
    method PickFrame() returns (f: nat)
      ensures f !in frames
    {
      ghost var g := FreeFrame(frames.Keys);
      assert g !in frames;
      f :| f !in frames;
    }

    /** A page is added, as by the heap and stack faults of src/kernel_page_fault.c. */
    method AddPage(x: Slot, data: seq<Byte>, writable: bool)
      requires Valid() && x !in ptes && x.page < PAGES
      modifies this
      ensures Valid() && Seen() == old(Seen())[x := Page(data, writable)]
    {
      var f := PickFrame();
      PutFresh(ptes, frames, x, Pte(f, writable, false), data);
      ptes, frames := ptes[x := Pte(f, writable, false)], frames[f := Frame(data, 1)];
    }

    method Unmap(x: Slot)
      requires Valid() && x in ptes
      modifies this
      ensures Valid() && Seen() == old(Seen()) - {x}
    {
      Drop(ptes, frames, x);
      ptes, frames := ptes - {x}, Released(frames, ptes[x].frame);
    }

    /** fork_cow_page, lines 15-31. */
    method CowFault(x: Slot) returns (handled: bool)
      requires Valid() && x in ptes && !ptes[x].writable
      modifies this
      ensures Valid() && Seen() == old(Seen()) && x in ptes
      ensures handled <==> old(Seen())[x].writable
      ensures handled ==> ptes[x].writable
    {
      assert EntryOk(ptes, frames, x);
      var e := ptes[x];
      if !e.forkWritable { return false; }
      var f := PickFrame();
      var data := frames[e.frame].data;
      Duplicate(ptes, frames, x, f);
      frames := frames[f := Frame(data, 1)];
      ptes := ptes[x := Pte(f, true, false)];
      frames := Released(frames, e.frame);
      handled := true;
    }

    /** A store that the entry allows. */
    method StoreByte(x: Slot, at: nat, b: Byte)
      requires Valid() && x in ptes && ptes[x].writable && at < |Seen()[x].data|
      modifies this`frames
      ensures Valid() && Seen() == Written(old(Seen()), x, at, b)
    {
      assert EntryOk(ptes, frames, x);
      var f := ptes[x].frame;
      var data := frames[f].data[at := b];
      Store(ptes, frames, x, data);
      frames := frames[f := frames[f].(data := data)];
    }

    /** A store to a present page: directly if the entry allows it, else through the page fault of
        src/kernel_page_fault.c:180-181; otherwise the process is killed. */
    method Write(x: Slot, at: nat, b: Byte) returns (ok: bool)
      requires Valid() && x in ptes && at < |Seen()[x].data|
      modifies this
      ensures Valid() && ok == old(Seen())[x].writable
      ensures Seen() == if ok then Written(old(Seen()), x, at, b) else old(Seen())
    {
      if !ptes[x].writable {
        var handled := CowFault(x);
        if !handled { return false; }
      }
      assert EntryOk(ptes, frames, x);
      StoreByte(x, at, b);
      ok := true;
    }

    /** Lines 151-154: a writable page becomes read-only and is marked. */
    method Downgrade(x: Slot)
      requires Valid() && x in ptes
      modifies this`ptes
      ensures Valid() && Seen() == old(Seen()) && x in ptes && !ptes[x].writable && ptes[x].frame == old(ptes[x].frame)
    {
      if ptes[x].writable {
        Protect(ptes, frames, x);
        ptes := ptes[x := ptes[x].(writable := false, forkWritable := true)];
      }
    }

    /** The allocator counted another reference. */
    method ShareFrame(x: Slot, y: Slot)
      requires Valid() && x in ptes && y !in ptes && y.page < PAGES && !ptes[x].writable
      modifies this
      ensures Valid() && Seen() == old(Seen())[y := old(Seen())[x]]
      ensures ptes == old(ptes)[y := old(ptes)[x]] && frames.Keys == old(frames).Keys
    {
      PutShared(ptes, frames, x, y);
      var f := ptes[x].frame;
      var newPtes, newFrames := ptes[y := ptes[x]], frames[f := frames[f].(refs := frames[f].refs + 1)];
      ptes, frames := newPtes, newFrames;
    }

    /** The allocator handed out a duplicate: the child owns the new frame, the parent keeps the old. */
    method UseDuplicate(x: Slot, y: Slot, inc: nat)
      requires Valid() && x in ptes && y !in ptes && y.page < PAGES && !ptes[x].writable && inc !in frames
      modifies this
      ensures Valid() && Seen() == old(Seen())[y := old(Seen())[x]]
    {
      assert EntryOk(ptes, frames, x);
      var e, data := ptes[x], frames[ptes[x].frame].data;
      if e.forkWritable { e := e.(writable := true, forkWritable := false); }
      e := e.(frame := inc);
      PutFresh(ptes, frames, y, e, data);
      frames := frames[inc := Frame(data, 1)];
      ptes := ptes[y := e];
    }

    /** Lines 147-167 for one private page.  The allocator counts another reference to its frame or hands out a
        duplicate. */
    method ForkPage(x: Slot, y: Slot, duplicated: bool)
      requires Valid() && x in ptes && y !in ptes && y.page < PAGES
      modifies this
      ensures Valid() && Seen() == old(Seen())[y := old(Seen())[x]]
      ensures !duplicated ==> ptes[x].frame == ptes[y].frame == old(ptes[x].frame) && frames.Keys == old(frames).Keys
    {
      Downgrade(x);
      if duplicated {
        var inc := PickFrame();
        UseDuplicate(x, y, inc);
      } else {
        ShareFrame(x, y);
      }
    }

    /** fork_dup_address_space over the private pages, in address order: the child sees a copy of every
        page, and nobody else sees a change. */
    method Fork(parent: nat, child: nat, duplicated: nat -> bool)
      requires Valid() && parent != child && forall x :: x in ptes ==> x.pid != child
      modifies this
      ensures Valid() && Seen() == Copied(old(Seen()), parent, child, PAGES)
      ensures (forall p :: !duplicated(p)) ==> frames.Keys == old(frames).Keys
    {
      ForkPages(parent, child, PAGES, duplicated);
    }

    method ForkPages(parent: nat, child: nat, pages: nat, duplicated: nat -> bool)
      requires Valid() && parent != child && pages <= PAGES && forall x :: x in ptes ==> x.pid != child
      modifies this
      ensures Valid() && Seen() == Copied(old(Seen()), parent, child, pages)
      ensures (forall p :: !duplicated(p)) ==> frames.Keys == old(frames).Keys
    {
      ghost var m := Seen();
      var page := 0;
      while page < pages
        invariant page <= pages && Valid() && Seen() == Copied(m, parent, child, page)
        invariant (forall p :: !duplicated(p)) ==> frames.Keys == old(frames).Keys
      {
        ForkOne(parent, child, page, duplicated(page), m);
        page := page + 1;
      }
    }

    /** One turn of the loops over page tables and pages. */
    method ForkOne(parent: nat, child: nat, page: nat, duplicated: bool, ghost m: Memory)
      requires Valid() && parent != child && page < PAGES && forall x :: x in m ==> x.pid != child
      requires Seen() == Copied(m, parent, child, page)
      modifies this
      ensures Valid() && Seen() == Copied(m, parent, child, page + 1)
      ensures !duplicated ==> frames.Keys == old(frames).Keys
    {
      var x, y := Slot(parent, page), Slot(child, page);
      CopiedIs(m, parent, child, page, x);
      CopiedIs(m, parent, child, page, y);
      if x in ptes { ForkPage(x, y, duplicated); }
    }

    method DoPut(x: Slot, at: nat, b: Byte)
      requires Valid()
      modifies this
      ensures Valid() && Seen() == Next(old(Seen()), Put(x, at, b))
    {
      if x in ptes {
        assert EntryOk(ptes, frames, x);
        if at < |frames[ptes[x].frame].data| { var ok := Write(x, at, b); }
      }
    }

    method DoClone(parent: nat, child: nat, duplicated: nat -> bool)
      requires Valid()
      modifies this
      ensures Valid() && Seen() == Next(old(Seen()), Clone(parent, child))
    {
      if parent != child && forall x :: x in ptes ==> x.pid != child { Fork(parent, child, duplicated); }
    }

    method Do(op: Op, duplicated: nat -> bool)
      requires Valid()
      modifies this
      ensures Valid() && Seen() == Next(old(Seen()), op)
    {
      match op {
        case Add(x, data, writable) =>
          if x !in ptes && x.page < PAGES { AddPage(x, data, writable); }
        case Remove(x) =>
          if x in ptes { Unmap(x); }
        case Put(x, at, b) => DoPut(x, at, b);
        case Clone(parent, child) => DoClone(parent, child, duplicated);
      }
    }

    /** Any run of additions, removals, stores and forks by any number of processes: what each process
        sees is what it would see if fork copied every page at once, whichever pages the allocator duplicates. */
    method Execute(ops: seq<Op>, duplicated: (nat, nat) -> bool)
      requires Valid()
      modifies this
      ensures Valid() && Seen() == Run(old(Seen()), ops)
    {
      ghost var m := Seen();
      var i := 0;
      while i < |ops|
        invariant i <= |ops| && Valid() && Seen() == Run(m, ops[..i])
      {
        RunOne(m, ops, i);
        Do(ops[i], (p: nat) => duplicated(i, p));
        i := i + 1;
      }
      assert ops[..i] == ops;
    }
  }
}
