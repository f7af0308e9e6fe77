/** The delta queue of src/kernel_sched_sleep_queue.c, against a queue of absolute deadlines. */
module SleepQueue {
  import opened Numbers

  const TICK_USEC: int := 976

  /** The process and thread of an entry. */
  datatype Key = Key(process: nat, thread: nat)

  /** struct sleep_queue. */
  datatype Entry = Entry(key: Key, magic: nat, delta: int)

  /** A sleeper with the time it is to be woken at. */
  datatype Timed = Timed(key: Key, magic: nat, at: int)

  /** magic_queue_value of every thread, and the threads made runnable. */
  datatype Threads = Threads(magic: map<Key, nat>, runnable: set<Key>)

  /** A thread goes to sleep, time passes, a thread that gave up takes its entry out, a signal wakes a thread
      and invalidates the queues it is in (src/kernel_signals.c, lines 267-270), and a futex or another queue
      wakes it and leaves them valid (src/futex.c, line 102, and src/kernel_sched_queue.c, line 20). */
  datatype Op = Sleep(key: Key, usec: int) | Tick(ticks: nat) | Remove(key: Key) | Signal(key: Key) | Rouse(key: Key)

  // ---------- absolute deadlines ----------

  /** The time, the sleepers in order, and the threads. */
  datatype Clock = Clock(now: int, queue: seq<Timed>, threads: Threads)

  function Inserted(d: seq<Timed>, t: Timed): seq<Timed> {
    if d == [] || d[0].at > t.at then [t] + d else [d[0]] + Inserted(d[1..], t)
  }

  /** How many sleepers at the front are due. */
  function Due(d: seq<Timed>, now: int): (n: nat)
    ensures n <= |d|
  {
    if d != [] && d[0].at <= now then 1 + Due(d[1..], now) else 0
  }

  function Without(d: seq<Timed>, key: Key): seq<Timed> {
    if d == [] then [] else if d[0].key == key then d[1..] else [d[0]] + Without(d[1..], key)
  }

  /** Lines 28-34: a sleeper is woken unless its thread has been queued elsewhere since. */
  function Wake(w: Threads, key: Key, magic: nat): Threads {
    if key in w.magic && w.magic[key] == magic
    then Threads(w.magic[key := magic + 1], w.runnable + {key})
    else w
  }

  function WakeAll(w: Threads, due: seq<Timed>): Threads
    decreases |due|
  {
    if due == [] then w
    else var n := |due| - 1; Wake(WakeAll(w, due[..n]), due[n].key, due[n].magic)
  }

  /** Line 88, in the 32 bits of size_t. */
  function Elapsed(ticks: nat): int { TICK_USEC * ticks % WORD }

  function Later(c: Clock, elapsed: int): Clock {
    var now := c.now + elapsed;
    var n := Due(c.queue, now);
    Clock(now, c.queue[n..], WakeAll(c.threads, c.queue[..n]))
  }

  function Signaled(w: Threads, key: Key): Threads {
    if key in w.magic then Threads(w.magic[key := w.magic[key] + 1], w.runnable + {key}) else w
  }

  function Roused(w: Threads, key: Key): Threads {
    if key in w.magic then w.(runnable := w.runnable + {key}) else w
  }

  /** A thread that can call: it exists and runs. */
  predicate Awake(w: Threads, key: Key) { key in w.magic && key in w.runnable }

  function Slept(c: Clock, key: Key, usec: int): Clock
    requires key in c.threads.magic
  {
    Clock(c.now, Inserted(c.queue, Timed(key, c.threads.magic[key], c.now + usec)),
          c.threads.(runnable := c.threads.runnable - {key}))
  }

  function Next(c: Clock, op: Op): Clock {
    match op
    case Sleep(key, usec) => if Awake(c.threads, key) && usec > 0 then Slept(c, key, usec) else c
    case Tick(ticks) => Later(c, Elapsed(ticks))
    case Remove(key) => c.(queue := Without(c.queue, key))
    case Signal(key) => c.(threads := Signaled(c.threads, key))
    case Rouse(key) => c.(threads := Roused(c.threads, key))
  }

  function Run(c: Clock, ops: seq<Op>): Clock
    decreases |ops|
  {
    if ops == [] then c else Next(Run(c, ops[..|ops| - 1]), ops[|ops| - 1])
  }

  /** The removal of a head with a successor, which leaves a freed entry at the head. */
  predicate LosesHead(c: Clock, op: Op) { op.Remove? && |c.queue| > 1 && c.queue[0].key == op.key }

  ghost predicate Smooth(c: Clock, ops: seq<Op>, n: nat) {
    n <= |ops| && forall k :: 0 <= k < n ==> !LosesHead(Run(c, ops[..k]), ops[k])
  }

  // ---------- whose turn an entry is ----------

  /** The entry `i` belongs to a thread, and if it can still wake it, the thread sleeps. */
  ghost predicate OwnAt(d: seq<Timed>, w: Threads, i: nat)
    requires i < |d|
  {
    && d[i].key in w.magic && d[i].magic <= w.magic[d[i].key]
    && (d[i].magic == w.magic[d[i].key] ==> d[i].key !in w.runnable)
  }

  ghost predicate Apart(d: seq<Timed>, i: nat, j: nat)
    requires i < |d| && j < |d|
  {
    i != j && d[i].key == d[j].key ==> d[i].magic != d[j].magic
  }

  /** This holds of every entry of the thread, and no two of them have the same magic value. */
  ghost predicate Own(d: seq<Timed>, w: Threads, key: Key) {
    && (forall i :: 0 <= i < |d| && d[i].key == key ==> OwnAt(d, w, i))
    && forall i, j :: 0 <= i < |d| && 0 <= j < |d| && d[i].key == key ==> Apart(d, i, j)
  }

  predicate OrderedAt(d: seq<Timed>, from: int, i: nat)
    requires i < |d|
  {
    from < d[i].at && (i > 0 ==> d[i - 1].at <= d[i].at)
  }

  predicate Ordered(d: seq<Timed>, from: int) { forall i :: 0 <= i < |d| ==> OrderedAt(d, from, i) }

  // ---------- the delta queue ----------

  predicate Deltas(q: seq<Entry>) {
    (forall i :: 0 <= i < |q| ==> q[i].delta >= 0) && (q != [] ==> q[0].delta > 0)
  }

  ghost function Deadlines(q: seq<Entry>, now: int): (d: seq<Timed>)
    ensures |d| == |q|
  {
    if q == [] then []
    else var at := now + q[0].delta; [Timed(q[0].key, q[0].magic, at)] + Deadlines(q[1..], at)
  }

  /** Lines 142-165: a sleeper that needs `usec` more. */
  function PutIn(q: seq<Entry>, key: Key, magic: nat, usec: int): seq<Entry> {
    if q == [] then [Entry(key, magic, usec)]
    else if q[0].delta > usec then [Entry(key, magic, usec), q[0].(delta := q[0].delta - usec)] + q[1..]
    else [q[0]] + PutIn(q[1..], key, magic, usec - q[0].delta)
  }

  /** Lines 62-79, which also describe the removal of a sole entry. */
  function TakeOut(q: seq<Entry>, key: Key): seq<Entry> {
    if q == [] then []
    else if q[0].key != key then [q[0]] + TakeOut(q[1..], key)
    else if |q| == 1 then []
    else [q[1].(delta := q[1].delta + q[0].delta)] + q[2..]
  }

  lemma {:induction false} PutInDeadlines(q: seq<Entry>, now: int, key: Key, magic: nat, usec: int)
    ensures Deadlines(PutIn(q, key, magic, usec), now) == Inserted(Deadlines(q, now), Timed(key, magic, now + usec))
  {
    if q != [] && q[0].delta <= usec {
      PutInDeadlines(q[1..], now + q[0].delta, key, magic, usec - q[0].delta);
      assert PutIn(q, key, magic, usec)[1..] == PutIn(q[1..], key, magic, usec - q[0].delta);
      assert Deadlines(q, now)[1..] == Deadlines(q[1..], now + q[0].delta);
    } else if q != [] {
      var r := PutIn(q, key, magic, usec);
      assert r[1..] == [q[0].(delta := q[0].delta - usec)] + q[1..];
      assert r[1..][1..] == q[1..];
    }
  }

  lemma {:induction false} PutInNonNegative(q: seq<Entry>, key: Key, magic: nat, usec: int)
    requires usec >= 0 && forall i :: 0 <= i < |q| ==> q[i].delta >= 0
    ensures var r := PutIn(q, key, magic, usec); r != [] && forall i :: 0 <= i < |r| ==> r[i].delta >= 0
  {
    if q != [] && q[0].delta <= usec {
      PutInNonNegative(q[1..], key, magic, usec - q[0].delta);
    }
  }

  lemma PutInDeltas(q: seq<Entry>, key: Key, magic: nat, usec: int)
    requires Deltas(q) && usec > 0
    ensures Deltas(PutIn(q, key, magic, usec))
  {
    PutInNonNegative(q, key, magic, usec);
  }

  lemma {:induction false} TakeOutDeadlines(q: seq<Entry>, now: int, key: Key)
    ensures Deadlines(TakeOut(q, key), now) == Without(Deadlines(q, now), key)
  {
    if q != [] {
      assert Deadlines(q, now)[1..] == Deadlines(q[1..], now + q[0].delta);
      if q[0].key != key {
        TakeOutDeadlines(q[1..], now + q[0].delta, key);
        assert TakeOut(q, key)[1..] == TakeOut(q[1..], key);
      } else if |q| > 1 {
        assert TakeOut(q, key)[1..] == q[1..][1..];
      }
    }
  }

  /** Entries that are due are those whose deltas fit the time elapsed. */
  lemma {:induction false} DueDeadlines(q: seq<Entry>, now: int, elapsed: int, n: nat)
    requires n <= |q| && (forall i :: 0 <= i < n ==> Fits(q, i, elapsed)) && (n < |q| ==> !Fits(q, n, elapsed))
    ensures Due(Deadlines(q, now), now + elapsed) == n
  {
    if q != [] {
      assert Deadlines(q, now)[1..] == Deadlines(q[1..], now + q[0].delta);
      assert Sum(q, 1) == Sum(q, 0) + q[0].delta;
      if n > 0 {
        assert Fits(q, 0, elapsed);
        var rest, left := q[1..], elapsed - q[0].delta;
        forall i | 0 <= i < n - 1 ensures Fits(rest, i, left) {
          assert Fits(q, i + 1, elapsed);
          SumFirst(q, i + 2);
        }
        if n < |q| { SumFirst(q, n + 1); }
        DueDeadlines(rest, now + q[0].delta, left, n - 1);
      }
    }
  }

  function Sum(q: seq<Entry>, n: nat): int
    requires n <= |q|
  {
    if n == 0 then 0 else Sum(q, n - 1) + q[n - 1].delta
  }

  predicate Fits(q: seq<Entry>, i: nat, elapsed: int)
    requires i < |q|
  {
    Sum(q, i + 1) <= elapsed
  }

  lemma {:induction false} SumFirst(q: seq<Entry>, n: nat)
    requires 0 < n <= |q|
    ensures Sum(q, n) == q[0].delta + Sum(q[1..], n - 1)
  {
    if n > 1 { SumFirst(q, n - 1); }
  }

  lemma {:induction false} RestDeadlines(q: seq<Entry>, now: int, n: nat)
    requires n <= |q|
    ensures Deadlines(q, now)[n..] == Deadlines(q[n..], now + Sum(q, n))
  {
    if n > 0 {
      SumFirst(q, n);
      RestDeadlines(q[1..], now + q[0].delta, n - 1);
      assert q[n..] == q[1..][n - 1..];
      assert Deadlines(q, now)[n..] == Deadlines(q[1..], now + q[0].delta)[n - 1..];
    } else {
      assert q[0..] == q && Deadlines(q, now)[0..] == Deadlines(q, now);
    }
  }

  // ---------- waking ----------

  lemma {:induction false} WakeAllEnough(w: Threads, due: seq<Timed>, i: nat)
    requires i < |due| && due[i].key in w.magic && w.magic[due[i].key] == due[i].magic
    ensures due[i].key in WakeAll(w, due).runnable
    decreases |due|
  {
    var n := |due| - 1;
    if i < n {
      WakeAllEnough(w, due[..n], i);
    } else {
      WakeAllMagic(w, due[..n], due[i].key);
    }
  }

  /** A thread's counter moves exactly when the thread is woken. */
  lemma {:induction false} WakeAllMagic(w: Threads, due: seq<Timed>, key: Key)
    requires key in w.magic
    ensures var v := WakeAll(w, due);
      && v.magic.Keys == w.magic.Keys && w.magic[key] <= v.magic[key] && w.runnable <= v.runnable
      && (v.magic[key] != w.magic[key] ==> key in v.runnable)
      && (v.magic[key] == w.magic[key] && key in v.runnable ==> key in w.runnable)
    decreases |due|
  {
    if due != [] {
      var n := |due| - 1;
      WakeAllMagic(w, due[..n], key);
    }
  }

  /** A thread is only woken by an entry of its own that is not out of date. */
  lemma {:induction false} WakeAllOnly(w: Threads, due: seq<Timed>, key: Key)
    requires key in w.magic
    requires forall i :: 0 <= i < |due| && due[i].key == key ==> due[i].magic != w.magic[key]
    ensures key in WakeAll(w, due).magic && WakeAll(w, due).magic[key] == w.magic[key]
    decreases |due|
  {
    if due != [] {
      var n := |due| - 1;
      WakeAllOnly(w, due[..n], key);
    }
  }

  // ---------- the code ----------

  class Queue {
    var sq: seq<Entry>
    /** The head pointer refers to an entry that has been freed. */
    var dangling: bool
    var threads: Threads
    ghost var now: int

    ghost predicate Valid()
      reads this
    {
      Deltas(sq) && !dangling
    }

    ghost function Abs(): Clock
      reads this
    {
      Clock(now, Deadlines(sq, now), threads)
    }

    constructor (w: Threads)
      ensures Valid() && Abs() == Clock(0, [], w)
    {
      sq, dangling, threads, now := [], false, w, 0;
    }

    /** The walk at lines 144-150: the new entry goes before entry `i`, whose predecessors take `passed`. */
    method FindPlace(usec: int) returns (i: nat, passed: int)
      requires Deltas(sq) && usec > 0
      ensures i <= |sq| && passed == Sum(sq, i) && 0 <= passed <= usec && PlaceAt(sq, i, usec)
    {
      i, passed := 0, 0;
      while i < |sq| && passed + sq[i].delta <= usec
        invariant i <= |sq| && passed == Sum(sq, i) && 0 <= passed <= usec
        invariant forall k :: 0 <= k < i ==> Fits(sq, k, usec)
      {
        assert sq[i].delta >= 0;
        passed := passed + sq[i].delta;
        i := i + 1;
      }
    }

    /** Lines 151-165. */
    method Insert(i: nat, e: Entry)
      requires i <= |sq|
      modifies this`sq
      ensures sq == if i == |old(sq)| then old(sq) + [e]
                    else old(sq)[..i] + [e, old(sq)[i].(delta := old(sq)[i].delta - e.delta)] + old(sq)[i + 1..]
    {
      if i == |sq| {
        sq := sq + [e];
      } else {
        sq := sq[..i] + [e, sq[i].(delta := sq[i].delta - e.delta)] + sq[i + 1..];
      }
    }

    /** Lines 142-165. */
    method Enqueue(key: Key, magic: nat, usec: int)
      requires Deltas(sq) && usec > 0
      modifies this`sq
      ensures sq == PutIn(old(sq), key, magic, usec) && Deltas(sq)
    {
      var i, passed := FindPlace(usec);
      PutInHere(sq, i, key, magic, usec);
      PutInDeltas(sq, key, magic, usec);
      Insert(i, Entry(key, magic, usec - passed));
    }

    /** sys_clock_nanosleep up to line 170, called by a thread that runs: `usec` is the time requested. */
    method Nanosleep(key: Key, usec: int)
      requires Valid() && Awake(threads, key)
      modifies this
      ensures Valid() && Abs() == Next(old(Abs()), Sleep(key, usec))
      ensures usec > 0 ==> sq == PutIn(old(sq), key, old(threads).magic[key], usec)
      ensures usec > 0 ==> key !in threads.runnable && threads.magic == old(threads).magic
    {
      if usec <= 0 { return; }
      var magic := threads.magic[key];
      PutInDeadlines(sq, now, key, magic, usec);
      Enqueue(key, magic, usec);
      threads := threads.(runnable := threads.runnable - {key});
    }

    /** sleep_pop_thread. */
    method Pop()
      requires sq != []
      modifies this`sq, this`threads
      ensures sq == old(sq)[1..] && threads == Wake(old(threads), old(sq)[0].key, old(sq)[0].magic)
    {
      var e := sq[0];
      if e.key in threads.magic && threads.magic[e.key] == e.magic {
        threads := Threads(threads.magic[e.key := e.magic + 1], threads.runnable + {e.key});
      }
      sq := sq[1..];
    }

    /** The loop at lines 90-93. */
    method PopLoop(elapsed: int) returns (delta: int, ghost n: nat)
      modifies this`sq, this`threads
      ensures n <= |old(sq)| && sq == old(sq)[n..] && delta == elapsed - Sum(old(sq), n)
      ensures forall i :: 0 <= i < n ==> Fits(old(sq), i, elapsed)
      ensures n < |old(sq)| ==> !Fits(old(sq), n, elapsed)
      ensures threads == WakeAll(old(threads), Deadlines(old(sq), now)[..n])
    {
      ghost var q, d := sq, Deadlines(sq, now);
      delta, n := elapsed, 0;
      while sq != [] && sq[0].delta <= delta
        invariant n <= |q| && sq == q[n..] && delta == elapsed - Sum(q, n)
        invariant forall i :: 0 <= i < n ==> Fits(q, i, elapsed)
        invariant threads == WakeAll(old(threads), d[..n])
        decreases |sq|
      {
        DeadlineAt(q, now, n);
        WakeAllOne(old(threads), d, n);
        delta := delta - sq[0].delta;
        Pop();
        n := n + 1;
      }
    }

    /** Lines 94-95. */
    method Shift(delta: int)
      modifies this`sq
      ensures sq == Shortened(old(sq), delta)
    {
      if sq != [] {
        sq := [sq[0].(delta := sq[0].delta - delta)] + sq[1..];
      }
    }

    /** Lines 90-93 pop the entries that are due; `delta` is left of the time elapsed. */
    method PopDue(elapsed: int) returns (delta: int, ghost n: nat)
      requires Deltas(sq)
      modifies this`sq, this`threads
      ensures var d := Deadlines(old(sq), now);
        && n == Due(d, now + elapsed)
        && Deadlines(sq, now + elapsed - delta) == d[n..]
        && threads == WakeAll(old(threads), d[..n])
      ensures (forall i :: 0 <= i < |sq| ==> sq[i].delta >= 0) && (sq != [] ==> sq[0].delta > delta)
    {
      ghost var q := sq;
      delta, n := PopLoop(elapsed);
      DueDeadlines(q, now, elapsed, n);
      RestDeadlines(q, now, n);
      RestDeltas(q, n, elapsed);
    }

    /** Lines 90-95, with the deadlines `d`, of which the first `n` are due. */
    method Drain(elapsed: int, ghost d: seq<Timed>) returns (ghost n: nat)
      requires Deltas(sq) && d == Deadlines(sq, now)
      modifies this`sq, this`threads
      ensures n == Due(d, now + elapsed) && threads == WakeAll(old(threads), d[..n])
      ensures Deltas(sq) && Deadlines(sq, now + elapsed) == d[n..]
    {
      var delta;
      delta, n := PopDue(elapsed);
      ShortenedDeadlines(sq, now + elapsed - delta, delta);
      Shift(delta);
    }

    method Advance(elapsed: int, ghost d: seq<Timed>) returns (ghost n: nat)
      requires Deltas(sq) && d == Deadlines(sq, now)
      modifies this`sq, this`threads, this`now
      ensures now == old(now) + elapsed && n == Due(d, now) && threads == WakeAll(old(threads), d[..n])
      ensures Deltas(sq) && Deadlines(sq, now) == d[n..]
    {
      n := Drain(elapsed, d);
      now := now + elapsed;
    }

    /** sleep_sched_tick. */
    method SchedTick(ticks: nat)
      requires Valid()
      modifies this
      ensures Valid() && Abs() == Next(old(Abs()), Tick(ticks))
      ensures 976 * ticks < 0x1_0000_0000 ==> now == old(now) + 976 * ticks
    {
      ghost var c := Abs();
      ghost var n := Advance(Elapsed(ticks), c.queue);
      TickParts(c, ticks, n, Deadlines(sq, now), threads);
    }

    /** Lines 267-270 of src/kernel_signals.c. */
    method Wakeup(key: Key)
      requires Valid()
      modifies this
      ensures Valid() && sq == old(sq) && Abs() == Next(old(Abs()), Signal(key))
      ensures key in old(threads).magic ==>
        && key in threads.runnable
        && threads.magic == old(threads).magic[key := old(threads).magic[key] + 1]
      ensures forall k :: k != key ==> (k in threads.runnable <==> k in old(threads).runnable)
    {
      if key in threads.magic {
        threads := Threads(threads.magic[key := threads.magic[key] + 1], threads.runnable + {key});
      }
    }

    /** A wake-up by a futex or by another queue. */
    method Unblock(key: Key)
      requires Valid()
      modifies this
      ensures Valid() && sq == old(sq) && Abs() == Next(old(Abs()), Rouse(key))
      ensures key in old(threads).magic ==> key in threads.runnable
      ensures threads.magic == old(threads).magic
      ensures forall k :: k != key ==> (k in threads.runnable <==> k in old(threads).runnable)
    {
      if key in threads.magic { threads := threads.(runnable := threads.runnable + {key}); }
    }

    /** sleep_remove_thread: what is left is a queue exactly when the entry was not a head with a successor. */
    method RemoveThread(key: Key)
      requires Valid()
      modifies this
      ensures dangling <==> |old(sq)| > 1 && old(sq)[0].key == key
      ensures !dangling ==> Valid() && Abs() == Next(old(Abs()), Remove(key))
      ensures threads == old(threads)
    {
      TakeOutDeadlines(sq, now, key);
      if sq == [] { return; }
      if sq[0].key == key {
        if |sq| > 1 {
          sq := sq[1 := sq[1].(delta := sq[1].delta + sq[0].delta)];
          dangling := true;
        } else {
          sq := [];
        }
        return;
      }
      RemoveInner(key);
    }

    /** The loop at lines 64-79. */
    method RemoveInner(key: Key)
      requires Deltas(sq) && sq != [] && sq[0].key != key
      modifies this`sq
      ensures Deltas(sq) && sq == TakeOut(old(sq), key)
    {
      ghost var out := TakeOut(sq, key);
      var i := 1;
      while i < |sq|
        invariant 1 <= i <= |sq| && sq == old(sq) && out == sq[..i] + TakeOut(sq[i..], key)
      {
        TakeOutStep(sq, i, key);
        if sq[i].key == key {
          if i + 1 < |sq| {
            sq := sq[..i] + [sq[i + 1].(delta := sq[i + 1].delta + sq[i].delta)] + sq[i + 2..];
          } else {
            sq := sq[..i];
          }
          return;
        }
        i := i + 1;
      }
    }

    method Step(op: Op)
      requires Valid()
      modifies this
      ensures dangling <==> LosesHead(old(Abs()), op)
      ensures !dangling ==> Valid() && Abs() == Next(old(Abs()), op)
    {
      match op
      case Sleep(key, usec) => if key in threads.magic && key in threads.runnable { Nanosleep(key, usec); }
      case Tick(ticks) => SchedTick(ticks);
      case Remove(key) =>
        if sq != [] { DeadlineAt(sq, now, 0); }
        RemoveThread(key);
      case Signal(key) => Wakeup(key);
      case Rouse(key) => Unblock(key);
    }

    method Steps(ops: seq<Op>) returns (done: nat)
      requires Valid()
      modifies this
      ensures done <= |ops| && Smooth(old(Abs()), ops, done)
      ensures done < |ops| ==> dangling && LosesHead(Run(old(Abs()), ops[..done]), ops[done])
      ensures done == |ops| ==> Valid() && Abs() == Run(old(Abs()), ops)
    {
      ghost var c := Abs();
      done := 0;
      while done < |ops|
        invariant done <= |ops| && Valid() && Abs() == Run(c, ops[..done]) && Smooth(c, ops, done)
      {
        ghost var b := Abs();
        Step(ops[done]);
        if dangling { return; }
        SmoothNext(c, ops, done, b);
        done := done + 1;
      }
      assert ops[..done] == ops;
    }

    /** A run, up to the first step that removes a head with a successor: until then the queue is the one of
        the deadlines, and a sleeper that nothing else happens to is runnable exactly when its time is up,
        whatever happens to the others. */
    method Execute(ops: seq<Op>) returns (done: nat)
      requires Valid()
      modifies this
      ensures done <= |ops| && Smooth(old(Abs()), ops, done)
      ensures done < |ops| ==> dangling && LosesHead(Run(old(Abs()), ops[..done]), ops[done])
      ensures done == |ops| ==> Valid() && Abs() == Run(old(Abs()), ops)
      ensures done == |ops| ==> forall t :: Asleep(old(Abs()), t) && Quiet(ops, t.key) ==>
        (t.key in threads.runnable <==> t.at <= now)
    {
      ghost var c := Abs();
      DeadlinesOrdered(sq, now, now);
      done := Steps(ops);
      forall t | Asleep(c, t) && Quiet(ops, t.key)
        ensures t.key in Run(c, ops).threads.runnable <==> t.at <= Run(c, ops).now
      {
        Punctual(c, ops, t);
      }
    }
  }

  /** The first `i` entries are due within `usec` and the next is not. */
  ghost predicate PlaceAt(q: seq<Entry>, i: nat, usec: int) {
    i <= |q| && (forall k :: 0 <= k < i ==> Fits(q, k, usec)) && (i < |q| ==> !Fits(q, i, usec))
  }

  lemma PlaceNext(q: seq<Entry>, i: nat, usec: int)
    requires 0 < i && PlaceAt(q, i, usec)
    ensures q[0].delta <= usec && PlaceAt(q[1..], i - 1, usec - q[0].delta)
  {
    var rest, left := q[1..], usec - q[0].delta;
    assert Fits(q, 0, usec) && Sum(q, 1) == Sum(q, 0) + q[0].delta;
    forall k | 0 <= k < i - 1 ensures Fits(rest, k, left) {
      assert Fits(q, k + 1, usec);
      SumFirst(q, k + 2);
    }
    if i < |q| { SumFirst(q, i + 1); }
  }

  lemma {:induction false} PutInHere(q: seq<Entry>, i: nat, key: Key, magic: nat, usec: int)
    requires PlaceAt(q, i, usec)
    ensures var e := Entry(key, magic, usec - Sum(q, i));
      PutIn(q, key, magic, usec)
         == if i == |q| then q + [e] else q[..i] + [e, q[i].(delta := q[i].delta - e.delta)] + q[i + 1..]
  {
    if i == 0 {
      if q != [] { assert Sum(q, 1) == Sum(q, 0) + q[0].delta; }
    } else {
      PlaceNext(q, i, usec);
      SumFirst(q, i);
      PutInHere(q[1..], i - 1, key, magic, usec - q[0].delta);
      Front(q, i);
    }
  }

  lemma Front(q: seq<Entry>, i: nat)
    requires 0 < i <= |q|
    ensures q == [q[0]] + q[1..] && q[..i] == [q[0]] + q[1..][..i - 1] && q[i..] == q[1..][i - 1..]
    ensures i < |q| ==> q[i + 1..] == q[1..][i..] && q[i] == q[1..][i - 1]
  {
  }

  lemma TakeOutStep(q: seq<Entry>, i: nat, key: Key)
    requires i < |q|
    ensures q[..i] + TakeOut(q[i..], key)
         == if q[i].key != key then q[..i + 1] + TakeOut(q[i + 1..], key)
            else if i + 1 == |q| then q[..i]
            else q[..i] + [q[i + 1].(delta := q[i + 1].delta + q[i].delta)] + q[i + 2..]
  {
    assert q[i..][1..] == q[i + 1..];
    if i + 1 < |q| { assert q[i..][2..] == q[i + 2..]; }
  }

  lemma {:induction false} DeadlineAt(q: seq<Entry>, now: int, n: nat)
    requires n < |q|
    ensures Deadlines(q, now)[n].key == q[n].key && Deadlines(q, now)[n].magic == q[n].magic
  {
    if n > 0 { DeadlineAt(q[1..], now + q[0].delta, n - 1); }
  }

  lemma WakeAllOne(w: Threads, d: seq<Timed>, n: nat)
    requires n < |d|
    ensures WakeAll(w, d[..n + 1]) == Wake(WakeAll(w, d[..n]), d[n].key, d[n].magic)
  {
    assert d[..n + 1][..n] == d[..n];
  }

  lemma Shorten(q: seq<Entry>, now: int, gone: int)
    requires q != []
    ensures Deadlines([q[0].(delta := q[0].delta - gone)] + q[1..], now + gone) == Deadlines(q, now)
  {
    assert ([q[0].(delta := q[0].delta - gone)] + q[1..])[1..] == q[1..];
  }

  lemma RestDeltas(q: seq<Entry>, n: nat, elapsed: int)
    requires Deltas(q) && n <= |q| && (n < |q| ==> !Fits(q, n, elapsed))
    ensures forall i :: 0 <= i < |q[n..]| ==> q[n..][i].delta >= 0
    ensures n < |q| ==> q[n].delta > elapsed - Sum(q, n)
  {
  }

  function Shortened(q: seq<Entry>, gone: int): seq<Entry> {
    if q == [] then [] else [q[0].(delta := q[0].delta - gone)] + q[1..]
  }

  lemma ShortenedDeadlines(q: seq<Entry>, now: int, gone: int)
    ensures Deadlines(Shortened(q, gone), now + gone) == Deadlines(q, now)
  {
    if q != [] { Shorten(q, now, gone); }
  }

  // ---------- what the deadlines promise ----------

  lemma {:induction false} DeadlinesOrdered(q: seq<Entry>, now: int, from: int)
    requires (forall i :: 0 <= i < |q| ==> q[i].delta >= 0) && (q != [] ==> from < now + q[0].delta)
    ensures Ordered(Deadlines(q, now), from)
  {
    if q != [] {
      var at := now + q[0].delta;
      DeadlinesOrdered(q[1..], at, from);
      var d := Deadlines(q, now);
      assert d[1..] == Deadlines(q[1..], at);
      if |q| > 1 { assert d[1] == Deadlines(q[1..], at)[0]; }
      forall i | 0 <= i < |d| ensures OrderedAt(d, from, i) {
        if i > 0 { assert OrderedAt(d[1..], from, i - 1); }
      }
    }
  }

  lemma RestStillOrdered(d: seq<Timed>, from: int, n: nat)
    requires Ordered(d, from) && n <= |d|
    ensures Ordered(d[n..], from)
  {
    var r := d[n..];
    forall i | 0 <= i < |r| ensures OrderedAt(r, from, i) {
      assert OrderedAt(d, from, n + i);
    }
  }

  /** In order, the entries that are due are exactly those whose deadline has passed. */
  lemma {:induction false} DueExactly(d: seq<Timed>, from: int, now: int, i: nat)
    requires Ordered(d, from) && i < |d|
    ensures i < Due(d, now) <==> d[i].at <= now
  {
    if i == 0 {
      return;
    }
    RestStillOrdered(d, from, 1);
    DueExactly(d[1..], from, now, i - 1);
    Sorted(d, from, 0, i);
  }

  lemma {:induction false} Sorted(d: seq<Timed>, from: int, i: nat, j: nat)
    requires Ordered(d, from) && i <= j < |d|
    ensures d[i].at <= d[j].at
  {
    if i < j {
      Sorted(d, from, i, j - 1);
      assert OrderedAt(d, from, j);
    }
  }

  lemma SplitFirst(d: seq<Timed>, n: nat)
    requires n < |d|
    ensures d[..n + 1] == [d[0]] + d[1..][..n] && d[n + 1..] == d[1..][n..]
  {
  }

  /** A new sleeper goes behind those with the same or an earlier deadline, and the others stay as they were. */
  lemma {:induction false} InsertedPlace(d: seq<Timed>, t: Timed) returns (k: nat)
    ensures k <= |d| && Inserted(d, t) == d[..k] + [t] + d[k..]
    ensures forall i :: 0 <= i < k ==> d[i].at <= t.at
    ensures k < |d| ==> t.at < d[k].at
  {
    if d == [] || d[0].at > t.at {
      k := 0;
    } else {
      var n := InsertedPlace(d[1..], t);
      k := n + 1;
      SplitFirst(d, n);
      forall i | 0 <= i < k ensures d[i].at <= t.at {
        if i > 0 { assert d[i] == d[1..][i - 1]; }
      }
    }
  }

  lemma DropLater(d: seq<Timed>, n: nat)
    requires n + 1 < |d|
    ensures d[..n + 1] + d[n + 2..] == [d[0]] + (d[1..][..n] + d[1..][n + 1..])
  {
  }

  lemma {:induction false} WithoutPlace(d: seq<Timed>, key: Key) returns (k: nat)
    ensures k <= |d| && forall i :: 0 <= i < k ==> d[i].key != key
    ensures if k == |d| then Without(d, key) == d else d[k].key == key && Without(d, key) == d[..k] + d[k + 1..]
  {
    if d == [] || d[0].key == key {
      k := 0;
    } else {
      var n := WithoutPlace(d[1..], key);
      k := n + 1;
      forall i | 0 <= i < k ensures d[i].key != key {
        if i > 0 { assert d[i] == d[1..][i - 1]; }
      }
      if k < |d| { DropLater(d, n); }
    }
  }

  lemma InsertedOrdered(d: seq<Timed>, from: int, t: Timed)
    requires Ordered(d, from) && from < t.at
    ensures Ordered(Inserted(d, t), from)
  {
    var k := InsertedPlace(d, t);
    var r := d[..k] + [t] + d[k..];
    forall i | 0 <= i < |r| ensures OrderedAt(r, from, i) {
      if i < k { assert OrderedAt(d, from, i); }
      if i > k { assert OrderedAt(d, from, i - 1); }
    }
  }

  lemma RestOrdered(d: seq<Timed>, from: int, now: int)
    requires Ordered(d, from)
    ensures Ordered(d[Due(d, now)..], now)
  {
    var m := Due(d, now);
    var r := d[m..];
    if m < |d| { DueExactly(d, from, now, m); }
    forall i | 0 <= i < |r| ensures OrderedAt(r, now, i) {
      assert OrderedAt(d, from, m + i);
      Sorted(d, from, m, m + i);
    }
  }

  lemma WithoutOrdered(d: seq<Timed>, from: int, key: Key)
    requires Ordered(d, from)
    ensures Ordered(Without(d, key), from)
  {
    var k := WithoutPlace(d, key);
    if k < |d| {
      var r := d[..k] + d[k + 1..];
      forall i | 0 <= i < |r| ensures OrderedAt(r, from, i) {
        if i < k {
          assert OrderedAt(d, from, i);
        } else {
          assert OrderedAt(d, from, i + 1);
          if i > 0 { Sorted(d, from, i - 1, i); }
        }
      }
    }
  }

  lemma NextOrdered(c: Clock, op: Op)
    requires Ordered(c.queue, c.now)
    ensures Ordered(Next(c, op).queue, Next(c, op).now) && c.now <= Next(c, op).now
  {
    match op
    case Sleep(key, usec) =>
      if Awake(c.threads, key) && usec > 0 {
        InsertedOrdered(c.queue, c.now, Timed(key, c.threads.magic[key], c.now + usec));
      }
    case Tick(ticks) => RestOrdered(c.queue, c.now, c.now + Elapsed(ticks));
    case Remove(key) => WithoutOrdered(c.queue, c.now, key);
    case Signal(key) =>
    case Rouse(key) =>
  }

  lemma InsertedKeeps(d: seq<Timed>, x: Timed, t: Timed)
    ensures t in Inserted(d, x) <==> t == x || t in d
  {
    var k := InsertedPlace(d, x);
    assert d == d[..k] + d[k..];
  }

  lemma WithoutKeeps(d: seq<Timed>, key: Key, t: Timed)
    ensures t in Without(d, key) ==> t in d
    ensures t in d && t.key != key ==> t in Without(d, key)
  {
    var k := WithoutPlace(d, key);
    if k < |d| { assert d == d[..k] + [d[k]] + d[k + 1..]; }
  }

  // ---------- every step keeps the entries of a thread apart ----------

  lemma SleepOwn(d: seq<Timed>, w: Threads, t: Timed, key: Key)
    requires Own(d, w, key) && Awake(w, t.key) && t.magic == w.magic[t.key]
    ensures Own(Inserted(d, t), w.(runnable := w.runnable - {t.key}), key)
  {
    var k := InsertedPlace(d, t);
    var r, v := d[..k] + [t] + d[k..], w.(runnable := w.runnable - {t.key});
    forall i | 0 <= i < |r| && r[i].key == key
      ensures OwnAt(r, v, i) && (i != k && key == t.key ==> r[i].magic != t.magic)
    {
      if i != k { assert OwnAt(d, w, if i < k then i else i - 1); }
    }
    forall i, j | 0 <= i < |r| && 0 <= j < |r| && r[i].key == key ensures Apart(r, i, j) {
      if i != k && j != k { assert Apart(d, if i < k then i else i - 1, if j < k then j else j - 1); }
    }
  }

  lemma TickOwn(d: seq<Timed>, w: Threads, n: nat, key: Key)
    requires Own(d, w, key) && n <= |d|
    ensures Own(d[n..], WakeAll(w, d[..n]), key)
  {
    var r, v := d[n..], WakeAll(w, d[..n]);
    forall i | 0 <= i < |r| && r[i].key == key ensures OwnAt(r, v, i) {
      assert OwnAt(d, w, n + i);
      WakeAllMagic(w, d[..n], key);
    }
    forall i, j | 0 <= i < |r| && 0 <= j < |r| && r[i].key == key ensures Apart(r, i, j) {
      assert Apart(d, n + i, n + j);
    }
  }

  lemma RemoveOwn(d: seq<Timed>, w: Threads, gone: Key, key: Key)
    requires Own(d, w, key)
    ensures Own(Without(d, gone), w, key)
  {
    var k := WithoutPlace(d, gone);
    if k < |d| {
      var r := d[..k] + d[k + 1..];
      forall i | 0 <= i < |r| && r[i].key == key ensures OwnAt(r, w, i) {
        assert OwnAt(d, w, if i < k then i else i + 1);
      }
      forall i, j | 0 <= i < |r| && 0 <= j < |r| && r[i].key == key ensures Apart(r, i, j) {
        assert Apart(d, if i < k then i else i + 1, if j < k then j else j + 1);
      }
    }
  }

  /** Signals, and wake-ups of others. */
  lemma WokenOwn(d: seq<Timed>, w: Threads, v: Threads, key: Key)
    requires Own(d, w, key) && (key in w.magic ==> key in v.magic && w.magic[key] <= v.magic[key])
    requires key in w.magic && w.magic[key] == v.magic[key] && key in v.runnable ==> key in w.runnable
    ensures Own(d, v, key)
  {
    forall i | 0 <= i < |d| && d[i].key == key ensures OwnAt(d, v, i) { assert OwnAt(d, w, i); }
  }

  /** Every step but a wake-up of the thread that leaves its magic value alone. */
  lemma NextOwn(c: Clock, op: Op, key: Key)
    requires Own(c.queue, c.threads, key) && op != Rouse(key)
    ensures Own(Next(c, op).queue, Next(c, op).threads, key)
  {
    match op
    case Sleep(k, usec) =>
      if Awake(c.threads, k) && usec > 0 {
        SleepOwn(c.queue, c.threads, Timed(k, c.threads.magic[k], c.now + usec), key);
      }
    case Tick(ticks) => TickOwn(c.queue, c.threads, Due(c.queue, c.now + Elapsed(ticks)), key);
    case Remove(k) => RemoveOwn(c.queue, c.threads, k, key);
    case Signal(k) => WokenOwn(c.queue, c.threads, Signaled(c.threads, k), key);
    case Rouse(k) => WokenOwn(c.queue, c.threads, Roused(c.threads, k), key);
  }

  ghost predicate Sound(c: Clock, key: Key) { Ordered(c.queue, c.now) && Own(c.queue, c.threads, key) }

  lemma TickParts(c: Clock, ticks: nat, n: nat, q: seq<Timed>, w: Threads)
    requires n == Due(c.queue, c.now + Elapsed(ticks)) && q == c.queue[n..] && w == WakeAll(c.threads, c.queue[..n])
    ensures Next(c, Tick(ticks)) == Clock(c.now + Elapsed(ticks), q, w)
  {
  }

  lemma RunNext(c: Clock, ops: seq<Op>, n: nat)
    requires n < |ops|
    ensures Run(c, ops[..n + 1]) == Next(Run(c, ops[..n]), ops[n])
  {
    assert ops[..n + 1][..n] == ops[..n];
  }

  lemma SmoothNext(c: Clock, ops: seq<Op>, n: nat, b: Clock)
    requires Smooth(c, ops, n) && n < |ops| && b == Run(c, ops[..n]) && !LosesHead(b, ops[n])
    ensures Smooth(c, ops, n + 1) && Run(c, ops[..n + 1]) == Next(b, ops[n])
  {
    RunNext(c, ops, n);
  }

  lemma {:induction false} RunOrdered(c: Clock, ops: seq<Op>)
    requires Ordered(c.queue, c.now)
    ensures Ordered(Run(c, ops).queue, Run(c, ops).now) && c.now <= Run(c, ops).now
    decreases |ops|
  {
    if ops != [] {
      var n := |ops| - 1;
      RunOrdered(c, ops[..n]);
      NextOrdered(Run(c, ops[..n]), ops[n]);
    }
  }

  lemma {:induction false} RunOwn(c: Clock, ops: seq<Op>, key: Key)
    requires Own(c.queue, c.threads, key) && forall i :: 0 <= i < |ops| ==> ops[i] != Rouse(key)
    ensures Own(Run(c, ops).queue, Run(c, ops).threads, key)
    decreases |ops|
  {
    if ops != [] {
      var n := |ops| - 1;
      RunOwn(c, ops[..n], key);
      NextOwn(Run(c, ops[..n]), ops[n], key);
    }
  }

  // ---------- a sleeper is woken when its time is up ----------

  /** The entry is in the queue, and its thread has not been woken since. */
  ghost predicate Waits(c: Clock, t: Timed) {
    t in c.queue && t.key in c.threads.magic && c.threads.magic[t.key] == t.magic
  }

  /** Its thread sleeps for it: no other entry can wake it, and nothing else has. */
  ghost predicate Asleep(c: Clock, t: Timed) { Waits(c, t) && Own(c.queue, c.threads, t.key) }

  /** Nothing else happens to the thread. */
  predicate Quiet(ops: seq<Op>, key: Key) {
    forall i :: 0 <= i < |ops| ==> ops[i].Tick? || ops[i].key != key
  }

  ghost predicate OnTime(c: Clock, t: Timed) {
    if t.at <= c.now then t.key in c.threads.runnable else Waits(c, t)
  }

  lemma OneEntry(d: seq<Timed>, w: Threads, i: nat, n: nat)
    requires n <= i < |d| && Own(d, w, d[i].key)
    ensures forall j :: 0 <= j < n && d[..n][j].key == d[i].key ==> d[..n][j].magic != d[i].magic
  {
    forall j | 0 <= j < n && d[..n][j].key == d[i].key ensures d[..n][j].magic != d[i].magic {
      assert Apart(d, j, i);
    }
  }

  lemma TickOnTime(c: Clock, elapsed: int, t: Timed)
    requires Sound(c, t.key) && OnTime(c, t) && elapsed >= 0
    ensures OnTime(Later(c, elapsed), t)
  {
    var n := Due(c.queue, c.now + elapsed);
    if t.at <= c.now {
      WakeAllGrows(c.threads, c.queue[..n]);
    } else {
      var i :| 0 <= i < |c.queue| && c.queue[i] == t;
      TickQueued(c.queue, c.threads, c.now, c.now + elapsed, i);
    }
  }

  /** What a tick does for entry `i`: if it is due, its thread is woken, and if not, it stays. */
  lemma TickQueued(d: seq<Timed>, w: Threads, from: int, now: int, i: nat)
    requires Ordered(d, from) && i < |d| && Own(d, w, d[i].key)
    requires d[i].key in w.magic && w.magic[d[i].key] == d[i].magic
    ensures var n := Due(d, now); var v := WakeAll(w, d[..n]);
      if d[i].at <= now then d[i].key in v.runnable
      else d[i] in d[n..] && d[i].key in v.magic && v.magic[d[i].key] == d[i].magic
  {
    var n := Due(d, now);
    DueExactly(d, from, now, i);
    if i < n { WakeAllEnough(w, d[..n], i); } else { StillWaits(d, w, i, n); }
  }

  /** An entry that is not due yet stays, and nothing that is due wakes its thread. */
  lemma StillWaits(d: seq<Timed>, w: Threads, i: nat, n: nat)
    requires n <= i < |d| && Own(d, w, d[i].key) && d[i].key in w.magic && w.magic[d[i].key] == d[i].magic
    ensures var v := WakeAll(w, d[..n]);
      d[i] in d[n..] && d[i].key in v.magic && v.magic[d[i].key] == d[i].magic
  {
    OneEntry(d, w, i, n);
    WakeAllOnly(w, d[..n], d[i].key);
    assert d[n..][i - n] == d[i];
  }

  lemma {:induction false} WakeAllGrows(w: Threads, due: seq<Timed>)
    ensures w.runnable <= WakeAll(w, due).runnable
    decreases |due|
  {
    if due != [] { WakeAllGrows(w, due[..|due| - 1]); }
  }

  lemma NextOnTime(c: Clock, op: Op, t: Timed)
    requires Sound(c, t.key) && OnTime(c, t) && (op.Tick? || op.key != t.key)
    ensures OnTime(Next(c, op), t)
  {
    match op
    case Sleep(key, usec) =>
      if Awake(c.threads, key) && usec > 0 {
        InsertedKeeps(c.queue, Timed(key, c.threads.magic[key], c.now + usec), t);
      }
    case Tick(ticks) => TickOnTime(c, Elapsed(ticks), t);
    case Remove(key) => WithoutKeeps(c.queue, key, t);
    case Signal(key) =>
    case Rouse(key) =>
  }

  lemma {:induction false} RunOnTime(c: Clock, ops: seq<Op>, t: Timed)
    requires Sound(c, t.key) && OnTime(c, t) && Quiet(ops, t.key)
    ensures OnTime(Run(c, ops), t)
    decreases |ops|
  {
    if ops != [] {
      var n := |ops| - 1;
      RunOnTime(c, ops[..n], t);
      RunOrdered(c, ops[..n]);
      RunOwn(c, ops[..n], t.key);
      NextOnTime(Run(c, ops[..n]), ops[n], t);
    }
  }

  /** Whoever else sleeps, is woken or gives up, a sleeper is runnable after the first tick that reaches its
      deadline and not before. */
  lemma Punctual(c: Clock, ops: seq<Op>, t: Timed)
    requires Ordered(c.queue, c.now) && Asleep(c, t) && Quiet(ops, t.key)
    ensures var r := Run(c, ops); t.key in r.threads.runnable <==> t.at <= r.now
  {
    var i :| 0 <= i < |c.queue| && c.queue[i] == t;
    assert OrderedAt(c.queue, c.now, i);
    RunOnTime(c, ops, t);
    RunOwn(c, ops, t.key);
    var r := Run(c, ops);
    if r.now < t.at {
      var j :| 0 <= j < |r.queue| && r.queue[j] == t;
      assert OwnAt(r.queue, r.threads, j);
    }
  }

  // ---------- no sleeper is woken for nothing ----------

  /** An entry of `c` that can wake the thread is due. */
  ghost predicate TimeUp(c: Clock, key: Key, now: int) {
    exists t :: Waits(c, t) && t.key == key && t.at <= now
  }

  /** The thread sleeps on, and whatever can wake it was there from the start. */
  ghost predicate SleepsOn(c: Clock, r: Clock, key: Key) {
    && key in c.threads.magic && key in r.threads.magic && r.threads.magic[key] == c.threads.magic[key]
    && key !in r.threads.runnable
    && forall t :: Waits(r, t) && t.key == key ==> t in c.queue
  }

  lemma TickSleepsOn(c: Clock, r: Clock, elapsed: int, key: Key)
    requires Ordered(r.queue, r.now) && SleepsOn(c, r, key) && elapsed >= 0
    ensures SleepsOn(c, Later(r, elapsed), key) || TimeUp(c, key, r.now + elapsed)
  {
    var now := r.now + elapsed;
    var n := Due(r.queue, now);
    var due := r.queue[..n];
    if i :| 0 <= i < n && due[i].key == key && due[i].magic == r.threads.magic[key] {
      DueExactly(r.queue, r.now, now, i);
      assert Waits(r, due[i]) && Waits(c, due[i]);
    } else {
      WakeAllOnly(r.threads, due, key);
      WakeAllMagic(r.threads, due, key);
      var s := Later(r, elapsed);
      forall t | Waits(s, t) && t.key == key ensures t in c.queue {
        assert t in r.queue && Waits(r, t);
      }
    }
  }

  lemma NextSleepsOn(c: Clock, r: Clock, op: Op, key: Key)
    requires Ordered(r.queue, r.now) && SleepsOn(c, r, key) && op != Signal(key) && op != Rouse(key)
    ensures SleepsOn(c, Next(r, op), key) || TimeUp(c, key, Next(r, op).now)
  {
    if op.Tick? {
      TickSleepsOn(c, r, Elapsed(op.ticks), key);
      return;
    }
    var s := Next(r, op);
    forall t | Waits(s, t) && t.key == key ensures t in c.queue {
      if op.Sleep? && Awake(r.threads, op.key) && op.usec > 0 {
        InsertedKeeps(r.queue, Timed(op.key, r.threads.magic[op.key], r.now + op.usec), t);
      }
      if op.Remove? { WithoutKeeps(r.queue, op.key, t); }
      assert Waits(r, t);
    }
  }

  /** A thread asleep that no signal, futex or other queue wakes is only woken once the deadline of an entry of
      its own has passed, whatever else it or others do. */
  lemma {:induction false} NeverEarly(c: Clock, ops: seq<Op>, key: Key)
    requires Ordered(c.queue, c.now) && key in c.threads.magic && key !in c.threads.runnable
    requires forall i :: 0 <= i < |ops| ==> ops[i] != Signal(key) && ops[i] != Rouse(key)
    ensures SleepsOn(c, Run(c, ops), key) || TimeUp(c, key, Run(c, ops).now)
    decreases |ops|
  {
    if ops != [] {
      var n := |ops| - 1;
      NeverEarly(c, ops[..n], key);
      RunOrdered(c, ops[..n]);
      var r := Run(c, ops[..n]);
      NextOrdered(r, ops[n]);
      if SleepsOn(c, r, key) { NextSleepsOn(c, r, ops[n], key); }
    }
  }

  /** Two sleepers are enough for a removal to leave a freed entry at the head. */
  method HeadRemoval(a: Key, b: Key) returns (queue: Queue)
    requires a != b
    ensures queue.dangling
  {
    queue := new Queue(Threads(map[a := 0, b := 0], {a, b}));
    queue.Nanosleep(a, 5);
    queue.Nanosleep(b, 9);
    assert |queue.sq| == 2 && queue.sq[0].key == a;
    queue.RemoveThread(a);
  }
}
