/** Untimed waiting and waking of src/futex.c, for any number of threads of a process and every interleaving of
    their steps, of stores by user code and of signals. */
module Futex {
  import opened Numbers

  const LONG_MAX: nat := 0x7fff_ffff

  /** Where a thread is in futex_wait or futex_wake. */
  datatype Pc =
    | Out
    | WaitLock(at: nat, expected: nat, owner: nat) | WaitCheck(at: nat, expected: nat, owner: nat)
    | WaitMark(at: nat, expected: nat, owner: nat)
    | WaitSleep(at: nat, expected: nat) | WaitUnlock(at: nat, expected: nat) | Asleep(at: nat, expected: nat)
    | WakeLock(at: nat, count: nat) | WakeScan(at: nat, count: nat, next: nat, woken: nat) | WakeUnlock

  /** `waiting`, `addr` and `owner` are is_waiting_on_futex, futex_addr and futex_owner; `sleeping` stands for the
      status SCHED_INTERR_SLEEP. */
  datatype Thread = Thread(pc: Pc, waiting: bool, addr: nat, owner: nat, ownerDead: bool, sleeping: bool)

  /** `locked` is futex_lock; `words` is user memory. */
  datatype State = State(threads: seq<Thread>, words: int -> int, locked: bool)

  datatype Act =
    | Wait(t: nat, at: nat, expected: nat, owner: nat)
    | Wake(t: nat, at: nat, count: nat)
    | Go(t: nat)
    | Signal(t: nat)
    | Store(at: nat, value: nat)

  predicate Holding(p: Pc) {
    p.WaitCheck? || p.WaitMark? || p.WaitSleep? || p.WaitUnlock? || p.WakeScan? || p.WakeUnlock?
  }

  /** Lines 91-93. */
  function Limit(count: nat): nat { if count > LONG_MAX then LONG_MAX else count }

  predicate Waits(t: Thread, at: nat) { t.waiting && t.addr == at }

  function Woken(t: Thread): Thread { t.(waiting := false, sleeping := false) }

  /** What thread `t` does next, if it can go on. */
  function Going(s: State, t: nat): State
    requires t < |s.threads|
  {
    var x := s.threads[t];
    match x.pc
    case Out => s
    case WaitLock(at, expected, owner) =>
      if s.locked then s else s.(threads := s.threads[t := x.(pc := WaitCheck(at, expected, owner))], locked := true)
    case WaitCheck(at, expected, owner) =>
      if s.words(at) != expected then s.(threads := s.threads[t := x.(pc := Out)], locked := false)
      else s.(threads := s.threads[t := x.(pc := WaitMark(at, expected, owner))])
    case WaitMark(at, expected, owner) =>
      s.(threads := s.threads[t := Thread(WaitSleep(at, expected), true, at, owner, false, x.sleeping)])
    case WaitSleep(at, expected) => s.(threads := s.threads[t := x.(pc := WaitUnlock(at, expected), sleeping := true)])
    case WaitUnlock(at, expected) =>
      s.(threads := s.threads[t := x.(pc := Asleep(at, expected))], locked := false)
    case Asleep(at, expected) =>
      if x.sleeping then s else s.(threads := s.threads[t := x.(pc := Out, waiting := false)])
    case WakeLock(at, count) =>
      if s.locked then s else s.(threads := s.threads[t := x.(pc := WakeScan(at, count, 0, 0))], locked := true)
    case WakeScan(at, count, next, woken) => Scanning(s, t)
    case WakeUnlock => s.(threads := s.threads[t := x.(pc := Out)], locked := false)
  }

  /** One turn of the loop at lines 99-107. */
  function Scanning(s: State, t: nat): State
    requires t < |s.threads| && s.threads[t].pc.WakeScan?
  {
    var x := s.threads[t];
    var p := x.pc;
    if p.next >= |s.threads| then s.(threads := s.threads[t := x.(pc := WakeUnlock)])
    else if !Waits(s.threads[p.next], p.at) then s.(threads := s.threads[t := x.(pc := p.(next := p.next + 1))])
    else
      var done := s.threads[p.next := Woken(s.threads[p.next])];
      var pc := if p.woken + 1 >= p.count then WakeUnlock else p.(next := p.next + 1, woken := p.woken + 1);
      s.(threads := done[t := done[t].(pc := pc)])
  }

  function Take(s: State, act: Act): State {
    match act
    case Wait(t, at, expected, owner) =>
      if t < |s.threads| && s.threads[t].pc == Out
      then s.(threads := s.threads[t := s.threads[t].(pc := WaitLock(at, expected, owner))]) else s
    case Wake(t, at, count) =>
      if t < |s.threads| && s.threads[t].pc == Out && count != 0
      then s.(threads := s.threads[t := s.threads[t].(pc := WakeLock(at, Limit(count)))]) else s
    case Go(t) => if t < |s.threads| then Going(s, t) else s
    case Signal(t) => if t < |s.threads| then s.(threads := s.threads[t := s.threads[t].(sleeping := false)]) else s
    case Store(at, value) => s.(words := a => if a == at then value else s.words(a))
  }

  // ---------- what every step keeps ----------

  /** A thread that sleeps, or is about to, can be found by a wake.  A wake goes on only while it has woken fewer
      threads than its limit. */
  ghost predicate Findable(x: Thread) {
    && (x.pc.WaitSleep? || x.pc.WaitUnlock? ==> Waits(x, x.pc.at))
    && (x.pc.Asleep? && x.sleeping ==> Waits(x, x.pc.at))
    && (x.pc.WakeLock? ==> 0 < x.pc.count <= LONG_MAX)
    && (x.pc.WakeScan? ==> x.pc.woken <= x.pc.next && x.pc.woken < x.pc.count <= LONG_MAX)
  }

  ghost predicate Inv(s: State) {
    && (forall t :: 0 <= t < |s.threads| ==> Findable(s.threads[t]))
    && (forall t :: 0 <= t < |s.threads| && Holding(s.threads[t].pc) ==> s.locked)
    && (forall t, u :: 0 <= t < u < |s.threads| && Holding(s.threads[t].pc) ==> !Holding(s.threads[u].pc))
  }

  /** Thread `x` has found `v` at `at` and is asleep for it, or goes to sleep. */
  predicate Committed(x: Thread, at: nat, v: nat) {
    || (x.pc.WaitMark? && x.pc.at == at && x.pc.expected == v)
    || x.pc == WaitSleep(at, v) || x.pc == WaitUnlock(at, v) || (x.pc == Asleep(at, v) && x.sleeping)
  }

  lemma ScanningInv(s: State, t: nat)
    requires Inv(s) && t < |s.threads| && s.threads[t].pc.WakeScan?
    ensures Inv(Scanning(s, t)) && |Scanning(s, t).threads| == |s.threads|
  {
  }

  /** One thread moves, and takes or gives up the lock as its steps do. */
  lemma MoveInv(s: State, t: nat, x: Thread, locked: bool)
    requires Inv(s) && t < |s.threads| && Findable(x)
    requires Holding(x.pc) ==> locked && (Holding(s.threads[t].pc) || !s.locked)
    requires s.locked && !locked ==> Holding(s.threads[t].pc)
    ensures Inv(s.(threads := s.threads[t := x], locked := locked))
  {
  }

  lemma GoingInv(s: State, t: nat)
    requires Inv(s) && t < |s.threads|
    ensures Inv(Going(s, t)) && |Going(s, t).threads| == |s.threads|
  {
    if s.threads[t].pc.WakeScan? {
      ScanningInv(s, t);
    } else {
      var n := Going(s, t);
      assert n == s.(threads := s.threads[t := n.threads[t]], locked := n.locked);
      MoveInv(s, t, n.threads[t], n.locked);
    }
  }

  lemma TakeInv(s: State, act: Act)
    requires Inv(s)
    ensures Inv(Take(s, act)) && |Take(s, act).threads| == |s.threads|
  {
    if act.Go? {
      if act.t < |s.threads| { GoingInv(s, act.t); }
    } else if !act.Store? && act.t < |s.threads| {
      var n, t := Take(s, act), act.t;
      assert n == s.(threads := s.threads[t := n.threads[t]], locked := s.locked);
      MoveInv(s, t, n.threads[t], s.locked);
    }
  }

  // ---------- a waiter sleeps, a wake wakes ----------

  /** Thread `t` goes on `n` times. */
  function GoOn(s: State, t: nat, n: nat): State
    decreases n
  {
    if n == 0 then s else GoOn(Take(s, Go(t)), t, n - 1)
  }

  /** A waiter that finds the expected value is asleep and marked after five steps, and has given up the lock. */
  lemma WaiterSleeps(s: State, t: nat, at: nat, v: nat, owner: nat)
    requires t < |s.threads| && s.threads[t].pc == WaitLock(at, v, owner) && !s.locked && s.words(at) == v
    ensures var n := GoOn(s, t, 5);
      && |n.threads| == |s.threads| && n.words == s.words && !n.locked
      && n.threads[t] == Thread(Asleep(at, v), true, at, owner, false, true)
      && forall u :: 0 <= u < |s.threads| && u != t ==> n.threads[u] == s.threads[u]
  {
    var n1 := Take(s, Go(t));
    var n2 := Take(n1, Go(t));
    var n3 := Take(n2, Go(t));
    var n4 := Take(n3, Go(t));
    assert n4.threads[t] == Thread(WaitUnlock(at, v), true, at, owner, false, true);
    var n5 := Take(n4, Go(t));
    assert GoOn(n5, t, 0) == n5 && GoOn(n4, t, 1) == n5;
    assert GoOn(n3, t, 2) == n5 && GoOn(n2, t, 3) == n5;
    assert GoOn(n1, t, 4) == n5 && GoOn(s, t, 5) == n5;
  }

  /** One that finds another value returns after two, and nothing else has changed. */
  lemma WaiterReturns(s: State, t: nat, at: nat, v: nat, owner: nat)
    requires t < |s.threads| && s.threads[t].pc == WaitLock(at, v, owner) && !s.locked && s.words(at) != v
    ensures GoOn(s, t, 2) == s.(threads := s.threads[t := s.threads[t].(pc := Out)])
  {
    var n1 := Take(s, Go(t));
    assert GoOn(s, t, 2) == GoOn(n1, t, 1);
  }

  /** Whatever the others do, a waiter that has found the expected value stays on its way to sleep, or asleep, until
      a signal or the scan of a wake reaches it. */
  lemma StaysCommitted(s: State, act: Act, t: nat, at: nat, v: nat)
    requires Inv(s) && t < |s.threads| && Committed(s.threads[t], at, v) && act != Signal(t)
    requires s.threads[t].pc.WaitUnlock? ==> s.threads[t].sleeping
    requires !(act.Go? && act.t < |s.threads| && s.threads[act.t].pc.WakeScan? && s.threads[act.t].pc.next == t)
    ensures |Take(s, act).threads| == |s.threads| && Committed(Take(s, act).threads[t], at, v)
    ensures Take(s, act).threads[t].pc.WaitUnlock? ==> Take(s, act).threads[t].sleeping
  {
  }

  /** A turn of the scan at thread `k`: if that waits on the address it is woken and counted, and the scan ends once
      the limit is reached; otherwise nothing happens to it.  No other thread is touched. */
  lemma ScanTurn(s: State, w: nat, at: nat, count: nat, k: nat, woken: nat)
    requires w < |s.threads| && s.threads[w].pc == WakeScan(at, count, k, woken) && k < |s.threads| && k != w
    ensures var n := Take(s, Go(w)); var x := s.threads[k];
      && |n.threads| == |s.threads| && n.words == s.words && n.locked == s.locked
      && (forall u :: 0 <= u < |s.threads| && u != k && u != w ==> n.threads[u] == s.threads[u])
      && if x.waiting && x.addr == at then
           && !n.threads[k].waiting && !n.threads[k].sleeping && n.threads[k].pc == x.pc
           && n.threads[w].pc == if woken + 1 < count then WakeScan(at, count, k + 1, woken + 1) else WakeUnlock
         else n.threads[k] == x && n.threads[w].pc == WakeScan(at, count, k + 1, woken)
  {
  }

  /** At the end of the list the scan ends. */
  lemma ScanEnd(s: State, w: nat, at: nat, count: nat, k: nat, woken: nat)
    requires w < |s.threads| && s.threads[w].pc == WakeScan(at, count, k, woken) && k >= |s.threads|
    ensures Take(s, Go(w)) == s.(threads := s.threads[w := s.threads[w].(pc := WakeUnlock)])
  {
  }

  // ---------- no wake-up is lost ----------

  /** None of the first `n` threads is asleep for `v` at `at`. */
  ghost predicate NoneCommitted(s: State, at: nat, v: nat, n: nat)
    requires n <= |s.threads|
  {
    forall t :: 0 <= t < n ==> !Committed(s.threads[t], at, v)
  }

  /** Once the word differs, nobody new commits to the old value. */
  lemma CommitsStop(s: State, act: Act, at: nat, v: nat, t: nat)
    requires Inv(s) && s.words(at) != v && t < |s.threads| && !Committed(s.threads[t], at, v)
    ensures |Take(s, act).threads| == |s.threads| && !Committed(Take(s, act).threads[t], at, v)
  {
  }

  /** While `w` scans for `at`, those it has passed are not asleep for `v`. */
  ghost predicate Passed(s: State, w: nat, at: nat, v: nat)
    requires w < |s.threads|
  {
    var p := s.threads[w].pc;
    && (p.WakeScan? && p.at == at ==> p.next <= |s.threads| && NoneCommitted(s, at, v, p.next))
    && (p == WakeUnlock ==> NoneCommitted(s, at, v, |s.threads|))
  }

  /** The scan of a wake without a limit. */
  lemma ScanStep(s: State, w: nat, at: nat, v: nat)
    requires Inv(s) && s.words(at) != v && w < |s.threads|
    requires var p := s.threads[w].pc; p.WakeScan? && p.at == at && p.count >= |s.threads| && Passed(s, w, at, v)
    ensures var n := Scanning(s, w); |n.threads| == |s.threads| && Passed(n, w, at, v)
  {
  }

  function Start(n: nat, words: int -> int): State {
    State(seq(n, _ => Thread(Out, false, 0, 0, false, false)), words, false)
  }

  ghost predicate Trace(ss: seq<State>, acts: seq<Act>) {
    |ss| == |acts| + 1 && forall i :: 0 <= i < |acts| ==> ss[i + 1] == Take(ss[i], acts[i])
  }

  lemma {:induction false} TraceInv(ss: seq<State>, acts: seq<Act>, k: nat)
    requires Trace(ss, acts) && k < |ss| && Inv(ss[0])
    ensures Inv(ss[k]) && |ss[k].threads| == |ss[0].threads|
  {
    if k > 0 {
      TraceInv(ss, acts, k - 1);
      TakeInv(ss[k - 1], acts[k - 1]);
    }
  }

  /** A step while `w` scans without a limit. */
  lemma WakeStep(s: State, act: Act, w: nat, at: nat, v: nat, count: nat)
    requires Inv(s) && s.words(at) != v && w < |s.threads| && count >= |s.threads| && Passed(s, w, at, v)
    requires var p := s.threads[w].pc; p.WakeScan? && p.at == at && p.count == count
    ensures var n := Take(s, act); var p := n.threads[w].pc;
      |n.threads| == |s.threads| && Passed(n, w, at, v) && (p.WakeScan? ==> p.at == at && p.count == count)
  {
    TakeInv(s, act);
    if act == Go(w) {
      ScanStep(s, w, at, v);
    } else {
      var p := s.threads[w].pc;
      assert Take(s, act).threads[w].pc == p;
      forall t | 0 <= t < p.next ensures !Committed(Take(s, act).threads[t], at, v) {
        CommitsStop(s, act, at, v, t);
      }
    }
  }

  /** In state `i` thread `w` is still walking the list, and the word differs from `v`. */
  ghost predicate Walking(ss: seq<State>, w: nat, at: nat, v: nat, i: nat) {
    i < |ss| && w < |ss[i].threads| == |ss[0].threads| && ss[i].threads[w].pc.WakeScan? && ss[i].words(at) != v
  }

  lemma {:induction false} WakeRun(ss: seq<State>, acts: seq<Act>, w: nat, at: nat, v: nat, count: nat, a: nat, k: nat)
    requires Trace(ss, acts) && Inv(ss[0]) && a <= k < |ss| && w < |ss[0].threads| <= count
    requires |ss[a].threads| == |ss[0].threads| && ss[a].threads[w].pc == WakeScan(at, count, 0, 0)
    requires forall i :: a <= i < k ==> Walking(ss, w, at, v, i)
    ensures |ss[k].threads| == |ss[0].threads| && Passed(ss[k], w, at, v)
    ensures var p := ss[k].threads[w].pc; p.WakeScan? ==> p.at == at && p.count == count
  {
    TraceInv(ss, acts, k);
    if k > a {
      WakeRun(ss, acts, w, at, v, count, a, k - 1);
      assert Walking(ss, w, at, v, k - 1);
      TraceInv(ss, acts, k - 1);
      WakeStep(ss[k - 1], acts[k - 1], w, at, v, count);
    }
  }

  /** A wake on `at` without a limit takes the lock in state `a` and has walked the list in state `b`.  If the word
      differs from `v` from `a` up to `c`, then from `b` to `c` nobody is asleep for `v`. */
  lemma {:induction false} NoLostWake(ss: seq<State>, acts: seq<Act>, w: nat, at: nat, v: nat, count: nat,
    a: nat, b: nat, c: nat)
    requires Trace(ss, acts) && Inv(ss[0]) && a <= b <= c < |ss| && w < |ss[0].threads| <= count
    requires |ss[a].threads| == |ss[b].threads| == |ss[0].threads|
    requires ss[a].threads[w].pc == WakeScan(at, count, 0, 0) && ss[b].threads[w].pc == WakeUnlock
    requires forall i :: a <= i < b ==> |ss[i].threads| == |ss[0].threads| && ss[i].threads[w].pc.WakeScan?
    requires forall i :: a <= i <= c ==> ss[i].words(at) != v
    ensures |ss[c].threads| == |ss[0].threads| && NoneCommitted(ss[c], at, v, |ss[c].threads|)
  {
    TraceInv(ss, acts, c);
    if c == b {
      WakeRun(ss, acts, w, at, v, count, a, b);
    } else {
      NoLostWake(ss, acts, w, at, v, count, a, b, c - 1);
      TraceInv(ss, acts, c - 1);
      forall t | 0 <= t < |ss[c].threads| ensures !Committed(ss[c].threads[t], at, v) {
        CommitsStop(ss[c - 1], acts[c - 1], at, v, t);
      }
    }
  }

  lemma StartInv(n: nat, words: int -> int)
    ensures Inv(Start(n, words))
  {
  }

  // ---------- the loops over the threads of a process ----------

  /** How many of the first `n` threads wait on `at`. */
  function Waiters(threads: seq<Thread>, at: nat, n: nat): nat
    requires n <= |threads|
  {
    if n == 0 then 0 else Waiters(threads, at, n - 1) + if Waits(threads[n - 1], at) then 1 else 0
  }

  lemma {:induction false} WaitersGrow(threads: seq<Thread>, at: nat, m: nat, n: nat)
    requires m <= n <= |threads|
    ensures Waiters(threads, at, m) <= Waiters(threads, at, n)
  {
    if m < n { WaitersGrow(threads, at, m, n - 1); }
  }

  class Process {
    var threads: seq<Thread>

    /** The loop at lines 98-107: it stops behind thread `last - 1`. */
    method WakeLoop(at: nat, limit: nat) returns (woken: nat, ghost last: nat)
      requires limit > 0
      modifies this
      ensures |threads| == |old(threads)| && last <= |threads|
      ensures woken == Waiters(old(threads), at, last) && (last < |threads| ==> woken == limit) && woken <= limit
      ensures forall k :: 0 <= k < last ==>
        threads[k] == if Waits(old(threads[k]), at) then Woken(old(threads[k])) else old(threads[k])
      ensures forall k :: last <= k < |threads| ==> threads[k] == old(threads[k])
    {
      ghost var before := threads;
      woken, last := 0, 0;
      var i := 0;
      while i < |threads|
        invariant last == i <= |threads| == |before| && woken == Waiters(before, at, i) < limit
        invariant forall k :: 0 <= k < i ==> threads[k] == if Waits(before[k], at) then Woken(before[k]) else before[k]
        invariant forall k :: i <= k < |threads| ==> threads[k] == before[k]
      {
        last := i + 1;
        if Waits(threads[i], at) {
          threads := threads[i := Woken(threads[i])];
          woken := woken + 1;
          if woken >= limit { return; }
        }
        i := i + 1;
      }
    }

    /** futex_wake, under both locks: the first waiters in the list are woken, as many as there are or as the limit
        allows, and their number is returned. */
    method FutexWake(at: nat, count: nat) returns (woken: nat)
      modifies this
      ensures |threads| == |old(threads)|
      ensures woken == Min(Limit(count), Waiters(old(threads), at, |threads|))
      ensures forall i :: 0 <= i < |threads| ==>
        threads[i] == if Waits(old(threads[i]), at) && Waiters(old(threads), at, i) < woken
                      then Woken(old(threads[i])) else old(threads[i])
      ensures woken <= count && woken <= 0x7fff_ffff
      ensures forall i :: 0 <= i < |threads| && threads[i] != old(threads[i]) ==>
        old(threads[i]).waiting && old(threads[i]).addr == at && !threads[i].waiting && !threads[i].sleeping
      ensures forall i :: 0 <= i < |threads| && threads[i].waiting && threads[i].addr == at ==>
        woken == count || woken == 0x7fff_ffff
    {
      woken := 0;
      if count == 0 { return; }
      ghost var before, last := threads, 0;
      woken, last := WakeLoop(at, if count > LONG_MAX then LONG_MAX else count);
      WaitersBelow(before, at, last);
      WaitersBelow(before, at, |before|);
      forall k | last <= k <= |before| ensures woken <= Waiters(before, at, k) {
        WaitersGrow(before, at, last, k);
      }
    }

    /** futex_wake_owner_dead. */
    method FutexWakeOwnerDead(tid: nat)
      modifies this
      ensures |threads| == |old(threads)|
      ensures forall i :: 0 <= i < |threads| ==>
        threads[i] == if old(threads[i]).waiting && old(threads[i]).owner == tid
                      then Woken(old(threads[i])).(ownerDead := true) else old(threads[i])
    {
      ghost var before := threads;
      var i := 0;
      while i < |threads|
        invariant i <= |threads| == |before|
        invariant forall k :: 0 <= k < i ==>
          threads[k] == if before[k].waiting && before[k].owner == tid then Woken(before[k]).(ownerDead := true)
                        else before[k]
        invariant forall k :: i <= k < |threads| ==> threads[k] == before[k]
      {
        if threads[i].waiting && threads[i].owner == tid {
          threads := threads[i := threads[i].(ownerDead := true, waiting := false, sleeping := false)];
        }
        i := i + 1;
      }
    }
  }

  /** A waiter among the first `n` has fewer waiters before it than there are among them. */
  lemma WaitersBelow(threads: seq<Thread>, at: nat, n: nat)
    requires n <= |threads|
    ensures forall k :: 0 <= k < n && Waits(threads[k], at) ==> Waiters(threads, at, k) < Waiters(threads, at, n)
  {
    forall k | 0 <= k < n && Waits(threads[k], at) ensures Waiters(threads, at, k) < Waiters(threads, at, n) {
      WaitersGrow(threads, at, k + 1, n);
    }
  }
}
