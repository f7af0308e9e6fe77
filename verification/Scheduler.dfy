/** The selection loop of schedule() in src/kernel_sched.c, for processes and threads that are not being
    torn down.  The linked lists are sequences, and a thread is known by its process and thread number. */
module Scheduler {
  datatype Status = Running | Runnable | InterruptibleSleep | UninterruptibleSleep | Waiting | DontSchedule

  /** `critical` is in_critical_section. */
  datatype Thread = Thread(tid: nat, status: Status, critical: nat)

  datatype Process = Process(pid: nat, stopped: bool, threads: seq<Thread>)

  /** A thread, or no thread before the scheduler has started. */
  datatype Who = Nobody | Who(pid: nat, tid: nat)

  datatype State = State(procs: seq<Process>, current: Who)

  /** push_process_to_end and push_thread_to_end, lines 129-141. */
  function ToEnd<T>(s: seq<T>, i: nat): (r: seq<T>)
    requires i < |s|
    ensures |r| == |s|
    ensures forall k :: 0 <= k < |s| ==> r[k] == if k < i then s[k] else if k < |s| - 1 then s[k + 1] else s[i]
  {
    s[..i] + s[i + 1..] + [s[i]]
  }

  predicate Distinct(procs: seq<Process>) {
    forall i, j :: 0 <= i < j < |procs| ==> procs[i].pid != procs[j].pid
  }

  predicate DistinctThreads(threads: seq<Thread>) {
    forall i, j :: 0 <= i < j < |threads| ==> threads[i].tid != threads[j].tid
  }

  /** Process `p` is well formed and runs no thread but `who`. */
  predicate Quiet(p: Process, who: Who) {
    DistinctThreads(p.threads) &&
    forall j :: 0 <= j < |p.threads| && p.threads[j].status == Running ==> who == Who(p.pid, p.threads[j].tid)
  }

  predicate AllQuiet(procs: seq<Process>, who: Who) {
    forall i :: 0 <= i < |procs| ==> Quiet(procs[i], who)
  }

  predicate Seated(procs: seq<Process>, who: Who, p: nat, a: nat) {
    && who.Who?
    && p < |procs| && procs[p].pid == who.pid
    && a < |procs[p].threads| && procs[p].threads[a].tid == who.tid
  }

  ghost predicate Present(procs: seq<Process>, who: Who) { exists p: nat, a: nat :: Seated(procs, who, p, a) }

  /** Numbers are unique, the current thread and the idle thread exist, and only the current thread is
      RUNNING. */
  ghost predicate Sane(s: State, idle: Who) {
    && Distinct(s.procs)
    && AllQuiet(s.procs, s.current)
    && Present(s.procs, idle)
    && (s.current != Nobody ==> Present(s.procs, s.current))
  }

  /** Lines 517-525: the scan takes this thread. */
  predicate Eligible(p: Process, t: Thread, idle: Who) {
    Who(p.pid, t.tid) != idle && t.status == Runnable && !(p.stopped && t.critical == 0)
  }

  predicate NoneEligible(p: Process, upto: nat, idle: Who)
    requires upto <= |p.threads|
  {
    forall j :: 0 <= j < upto ==> !Eligible(p, p.threads[j], idle)
  }

  predicate First(procs: seq<Process>, i: nat, j: nat, idle: Who)
    requires i < |procs| && j < |procs[i].threads|
  {
    && (forall k :: 0 <= k < i ==> NoneEligible(procs[k], |procs[k].threads|, idle))
    && NoneEligible(procs[i], j, idle)
    && Eligible(procs[i], procs[i].threads[j], idle)
  }

  /** What can happen to a thread during a call: an alarm or a pending signal (lines 506-511) or the
      cancellation of an interruptible sleep (lines 558-571) makes it runnable. */
  predicate WokenThread(t: Thread, u: Thread) {
    u == t || (t.status != Running && u == t.(status := Runnable))
  }

  /** A signal can also stop or continue the process. */
  predicate WokenProcess(p: Process, q: Process) {
    && q.pid == p.pid && |q.threads| == |p.threads|
    && forall j :: 0 <= j < |p.threads| ==> WokenThread(p.threads[j], q.threads[j])
  }

  predicate Woken(procs: seq<Process>, after: seq<Process>) {
    |after| == |procs| && forall i :: 0 <= i < |procs| ==> WokenProcess(procs[i], after[i])
  }

  function Assigned(procs: seq<Process>, c: nat, d: nat, status: Status): (r: seq<Process>)
    requires c < |procs| && d < |procs[c].threads|
    ensures |r| == |procs|
  {
    procs[c := procs[c].(threads := procs[c].threads[d := procs[c].threads[d].(status := status)])]
  }

  /** Lines 433-439: process `c` goes to the end, and so does its thread `d` if it was running. */
  function Demoted(procs: seq<Process>, c: nat, d: nat): (r: seq<Process>)
    requires c < |procs| && d < |procs[c].threads|
    ensures |r| == |procs|
  {
    var p := procs[c];
    var t := p.threads[d];
    var q := if t.status == Running then p.(threads := ToEnd(p.threads[d := t.(status := Runnable)], d)) else p;
    ToEnd(procs[c := q], c)
  }

  /** Lines 526-528: thread `j` of process `i` runs, and both go to the end of their lists. */
  function Promoted(procs: seq<Process>, i: nat, j: nat): (r: seq<Process>)
    requires i < |procs| && j < |procs[i].threads|
    ensures |r| == |procs|
  {
    var p := procs[i];
    var q := p.(threads := ToEnd(p.threads[j := p.threads[j].(status := Running)], j));
    ToEnd(procs[i := q], i)
  }

  /** One call of schedule: `rested` is the list after the running thread was put back, `seen` has every process
      as it was when the scan came to it, `scanned` is the list after the scan, and `i` and `j` are the choice if
      there was one. */
  datatype Call = Call(
    before: State, rested: seq<Process>, seen: seq<Process>, scanned: seq<Process>,
    found: bool, i: nat, j: nat, after: State)

  ghost predicate Rested(s: State, rested: seq<Process>) {
    if s.current == Nobody then rested == s.procs
    else exists c: nat, d: nat :: Seated(s.procs, s.current, c, d) && rested == Demoted(s.procs, c, d)
  }

  /** The scan goes through `seen` and takes thread `j` of process `i`. */
  ghost predicate Takes(seen: seq<Process>, i: nat, j: nat, idle: Who) {
    i < |seen| && j < |seen[i].threads| && First(seen, i, j, idle)
  }

  /** The scan has passed over the first `n` processes. */
  ghost predicate Passed(seen: seq<Process>, n: nat, idle: Who) {
    forall k :: 0 <= k < n <= |seen| ==> NoneEligible(seen[k], |seen[k].threads|, idle)
  }

  ghost predicate AllIneligible(seen: seq<Process>, idle: Who) { Passed(seen, |seen|, idle) }

  /** From process `n` on the lists are the same. */
  ghost predicate SameFrom(x: seq<Process>, y: seq<Process>, n: nat) {
    |x| == |y| && forall k :: n <= k < |x| ==> x[k] == y[k]
  }

  ghost predicate Legal(call: Call, idle: Who) {
    && Rested(call.before, call.rested)
    && Woken(call.rested, call.seen) && Woken(call.seen, call.scanned)
    && if call.found then
         && Takes(call.seen, call.i, call.j, idle)
         && WokenProcess(call.seen[call.i], call.scanned[call.i])
         && call.after == State(Promoted(call.scanned, call.i, call.j),
                                Who(call.seen[call.i].pid, call.seen[call.i].threads[call.j].tid))
       else AllIneligible(call.seen, idle) && call.after == State(call.scanned, idle)
  }

  // ---------- the three phases ----------

  lemma ToEndDistinct(procs: seq<Process>, i: nat)
    requires Distinct(procs) && i < |procs|
    ensures Distinct(ToEnd(procs, i))
  {
  }

  lemma ToEndThreads(threads: seq<Thread>, i: nat)
    requires DistinctThreads(threads) && i < |threads|
    ensures DistinctThreads(ToEnd(threads, i))
  {
  }

  /** Where thread `a` of a list is after thread `d` went to the end. */
  function Seat(a: nat, d: nat, n: nat): nat
    requires a < n
  {
    if a < d then a else if a == d then n - 1 else a - 1
  }

  /** The process moves first, then its thread. */
  lemma DemotedBy(procs: seq<Process>, c: nat, d: nat)
    requires c < |procs| && d < |procs[c].threads|
    ensures var r, n := ToEnd(procs, c), |procs| - 1;
      && r[n] == procs[c]
      && if procs[c].threads[d].status == Running then
           var q := Assigned(r, n, d, Runnable);
           q[n := q[n].(threads := ToEnd(q[n].threads, d))] == Demoted(procs, c, d)
         else r == Demoted(procs, c, d)
  {
  }

  lemma DemotedQuiet(procs: seq<Process>, who: Who, c: nat, d: nat)
    requires Distinct(procs) && AllQuiet(procs, who) && Seated(procs, who, c, d)
    ensures Distinct(Demoted(procs, c, d)) && AllQuiet(Demoted(procs, c, d), Nobody)
  {
    var p := procs[c];
    var t := p.threads[d];
    assert Quiet(p, who);
    var q := if t.status == Running then p.(threads := ToEnd(p.threads[d := t.(status := Runnable)], d)) else p;
    assert Quiet(q, Nobody) by {
      ToEndThreads(p.threads[d := t.(status := Runnable)], d);
    }
    var put := procs[c := q];
    forall i | 0 <= i < |procs| ensures Quiet(put[i], Nobody) {
      assert Quiet(procs[i], who);
    }
    ToEndDistinct(put, c);
  }

  /** A thread that is not running keeps its place or moves forward in its process, and its process does so
      in the list unless it is the current one. */
  lemma DemotedSeat(procs: seq<Process>, c: nat, d: nat, who: Who, p: nat, a: nat) returns (p': nat, a': nat)
    requires c < |procs| && d < |procs[c].threads| && Seated(procs, who, p, a)
    requires procs[p].threads[a].status != Running
    ensures Seated(Demoted(procs, c, d), who, p', a') && a' <= a
    ensures p' <= if c == p then |procs| - 1 else p
    ensures Demoted(procs, c, d)[p'].threads[a'] == procs[p].threads[a]
    ensures Demoted(procs, c, d)[p'].stopped == procs[p].stopped
  {
    p', a' := Seat(p, c, |procs|), a;
    if c == p && procs[c].threads[d].status == Running {
      a' := Seat(a, d, |procs[p].threads|);
    }
  }

  lemma WokenQuiet(procs: seq<Process>, after: seq<Process>)
    requires Woken(procs, after) && Distinct(procs) && AllQuiet(procs, Nobody)
    ensures Distinct(after) && AllQuiet(after, Nobody)
  {
    forall i | 0 <= i < |procs| ensures Quiet(after[i], Nobody) && after[i].pid == procs[i].pid {
      assert WokenProcess(procs[i], after[i]) && Quiet(procs[i], Nobody);
      forall j | 0 <= j < |procs[i].threads| ensures after[i].threads[j].tid == procs[i].threads[j].tid
        && after[i].threads[j].status != Running
      {
        assert WokenThread(procs[i].threads[j], after[i].threads[j]);
      }
    }
  }

  lemma PromotedQuiet(procs: seq<Process>, i: nat, j: nat)
    requires Distinct(procs) && AllQuiet(procs, Nobody) && i < |procs| && j < |procs[i].threads|
    ensures var who := Who(procs[i].pid, procs[i].threads[j].tid); var r := Promoted(procs, i, j);
      Distinct(r) && AllQuiet(r, who) && Seated(r, who, |r| - 1, |procs[i].threads| - 1)
  {
    var p := procs[i];
    var who := Who(p.pid, p.threads[j].tid);
    var q := p.(threads := ToEnd(p.threads[j := p.threads[j].(status := Running)], j));
    assert Quiet(p, Nobody);
    assert Quiet(q, who) by {
      ToEndThreads(p.threads[j := p.threads[j].(status := Running)], j);
    }
    var put := procs[i := q];
    forall k | 0 <= k < |procs| ensures Quiet(put[k], who) {
      assert Quiet(procs[k], Nobody);
    }
    ToEndDistinct(put, i);
  }

  lemma PromotedSeat(procs: seq<Process>, i: nat, j: nat, who: Who, p: nat, a: nat)
    requires i < |procs| && j < |procs[i].threads| && Seated(procs, who, p, a) && (i < p || (i == p && j < a))
    ensures var r := Promoted(procs, i, j);
      Seated(r, who, if i < p then p - 1 else |r| - 1, if i < p then a else a - 1)
  {
  }

  lemma DemotedPresent(procs: seq<Process>, c: nat, d: nat, who: Who)
    requires c < |procs| && d < |procs[c].threads| && Present(procs, who)
    ensures Present(Demoted(procs, c, d), who)
  {
    var p: nat, a: nat :| Seated(procs, who, p, a);
    if c == p && procs[c].threads[d].status == Running {
      assert Seated(Demoted(procs, c, d), who, Seat(p, c, |procs|), Seat(a, d, |procs[p].threads|));
    } else {
      assert Seated(Demoted(procs, c, d), who, Seat(p, c, |procs|), a);
    }
  }

  lemma WokenSeat(procs: seq<Process>, after: seq<Process>, who: Who, p: nat, a: nat)
    requires Woken(procs, after) && Seated(procs, who, p, a)
    ensures Seated(after, who, p, a)
  {
    assert WokenProcess(procs[p], after[p]) && WokenThread(procs[p].threads[a], after[p].threads[a]);
  }

  lemma WokenTwice(x: seq<Process>, y: seq<Process>, z: seq<Process>)
    requires Woken(x, y) && Woken(y, z)
    ensures Woken(x, z)
  {
    forall i | 0 <= i < |x| ensures WokenProcess(x[i], z[i]) {
      assert WokenProcess(x[i], y[i]) && WokenProcess(y[i], z[i]);
      forall j | 0 <= j < |x[i].threads| ensures WokenThread(x[i].threads[j], z[i].threads[j]) {
        assert WokenThread(x[i].threads[j], y[i].threads[j]) && WokenThread(y[i].threads[j], z[i].threads[j]);
      }
    }
  }

  lemma WokenAssigned(seen: seq<Process>, procs: seq<Process>, c: nat, d: nat)
    requires Woken(seen, procs) && c < |procs| && d < |procs[c].threads| && procs[c].threads[d].status != Running
    ensures Woken(seen, Assigned(procs, c, d, Runnable))
  {
    var r := Assigned(procs, c, d, Runnable);
    forall i | 0 <= i < |procs| ensures WokenProcess(procs[i], r[i]) {}
    WokenTwice(seen, procs, r);
  }

  /** Of what the signals have just changed, the scan will see what lies ahead of it. */
  lemma Reached(was: seq<Process>, before: seq<Process>, now: seq<Process>, i: nat)
    requires Woken(was, before) && Woken(before, now) && i < |was|
    requires forall k :: i <= k < |was| ==> before[k] == was[k]
    ensures var seen := was[..i] + now[i..]; Woken(was, seen) && Woken(seen, now)
  {
    WokenTwice(was, before, now);
    var seen := was[..i] + now[i..];
    forall k | 0 <= k < |was| ensures WokenProcess(was[k], seen[k]) && WokenProcess(seen[k], now[k]) {
      assert WokenProcess(was[k], now[k]);
    }
  }

  lemma WokenPresent(procs: seq<Process>, after: seq<Process>, who: Who)
    requires Woken(procs, after) && Present(procs, who)
    ensures Present(after, who)
  {
    var p: nat, a: nat :| Seated(procs, who, p, a);
    WokenSeat(procs, after, who, p, a);
  }

  lemma PromotedPresent(procs: seq<Process>, i: nat, j: nat, who: Who)
    requires i < |procs| && j < |procs[i].threads| && Present(procs, who)
    ensures Present(Promoted(procs, i, j), who)
  {
    var p: nat, a: nat :| Seated(procs, who, p, a);
    if i == p {
      assert Seated(Promoted(procs, i, j), who, Seat(p, i, |procs|), Seat(a, j, |procs[p].threads|));
    } else {
      assert Seated(Promoted(procs, i, j), who, Seat(p, i, |procs|), a);
    }
  }

  lemma RestedSane(s: State, rested: seq<Process>, idle: Who)
    requires Sane(s, idle) && Rested(s, rested)
    ensures Distinct(rested) && AllQuiet(rested, Nobody) && Present(rested, idle) && |rested| == |s.procs|
  {
    if s.current != Nobody {
      var c: nat, d: nat :| Seated(s.procs, s.current, c, d) && rested == Demoted(s.procs, c, d);
      DemotedQuiet(s.procs, s.current, c, d);
      DemotedPresent(s.procs, c, d, idle);
    }
  }

  /** Every call keeps the lists well formed, and RUNNING belongs to the current thread alone. */
  lemma CallSane(call: Call, idle: Who)
    requires Sane(call.before, idle) && Legal(call, idle)
    ensures Sane(call.after, idle) && |call.after.procs| == |call.before.procs|
  {
    RestedSane(call.before, call.rested, idle);
    WokenQuiet(call.rested, call.seen);
    WokenPresent(call.rested, call.seen, idle);
    WokenQuiet(call.seen, call.scanned);
    WokenPresent(call.seen, call.scanned, idle);
    if call.found {
      var i, j := call.i, call.j;
      assert WokenProcess(call.seen[i], call.scanned[i]);
      assert WokenThread(call.seen[i].threads[j], call.scanned[i].threads[j]);
      PromotedQuiet(call.scanned, i, j);
      PromotedPresent(call.scanned, i, j, idle);
    } else {
      forall i | 0 <= i < |call.scanned| ensures Quiet(call.scanned[i], idle) {
        assert Quiet(call.scanned[i], Nobody);
      }
    }
  }

  lemma OneRuns(s: State, idle: Who, x: Who, y: Who, p: nat, a: nat, q: nat, b: nat)
    requires Sane(s, idle) && Seated(s.procs, x, p, a) && Seated(s.procs, y, q, b)
    requires s.procs[p].threads[a].status == Running && s.procs[q].threads[b].status == Running
    ensures x == y == s.current
  {
    assert Quiet(s.procs[p], s.current) && Quiet(s.procs[q], s.current);
  }

  // ---------- who is chosen ----------

  /** Before the scan the process of the current thread is the last one, and the others follow in order.  If the
      thread was RUNNING it is RUNNABLE and the last of its process, and the other threads follow in order. */
  lemma RestedLast(s: State, rested: seq<Process>) returns (c: nat, d: nat)
    requires Rested(s, rested) && s.current.Who?
    ensures Seated(s.procs, s.current, c, d) && |rested| == |s.procs|
    ensures forall k :: 0 <= k < |rested| - 1 ==> rested[k] == s.procs[if k < c then k else k + 1]
    ensures var p, q := s.procs[c], rested[|rested| - 1]; var n := |p.threads| - 1;
      if p.threads[d].status != Running then q == p else
        && q.pid == p.pid && q.stopped == p.stopped && |q.threads| == n + 1
        && q.threads[n] == p.threads[d].(status := Runnable)
        && forall k :: 0 <= k < n ==> q.threads[k] == p.threads[if k < d then k else k + 1]
  {
    c, d :| Seated(s.procs, s.current, c, d) && rested == Demoted(s.procs, c, d);
    DemotedLast(s.procs, c, d);
  }

  lemma DemotedLast(procs: seq<Process>, c: nat, d: nat)
    requires c < |procs| && d < |procs[c].threads|
    ensures var r := Demoted(procs, c, d); var p, q := procs[c], r[|r| - 1]; var n := |p.threads| - 1;
      && (forall k :: 0 <= k < |r| - 1 ==> r[k] == procs[if k < c then k else k + 1])
      && if p.threads[d].status != Running then q == p else
           && q.pid == p.pid && q.stopped == p.stopped && |q.threads| == n + 1
           && q.threads[n] == p.threads[d].(status := Runnable)
           && forall k :: 0 <= k < n ==> q.threads[k] == p.threads[if k < d then k else k + 1]
  {
  }

  /** After a choice the process and the thread chosen are the last of their lists, and the thread is RUNNING. */
  lemma ChosenLast(call: Call, idle: Who)
    requires Legal(call, idle) && call.found
    ensures call.i < |call.scanned| && call.j < |call.scanned[call.i].threads|
    ensures var x, y := call.scanned, call.after.procs;
      && |y| == |x|
      && forall k :: 0 <= k < |x| - 1 ==> y[k] == x[if k < call.i then k else k + 1]
    ensures var p, q := call.scanned[call.i], call.after.procs[|call.scanned| - 1]; var n := |p.threads| - 1;
      && q.pid == p.pid && q.stopped == p.stopped && |q.threads| == n + 1
      && q.threads[n] == p.threads[call.j].(status := Running)
      && forall k :: 0 <= k < n ==> q.threads[k] == p.threads[if k < call.j then k else k + 1]
  {
  }

  /** A thread chosen by a call was RUNNABLE when the scan came to it, and in a critical section if its process was
      stopped; no thread of which that is true comes before it. */
  lemma ChosenReady(call: Call, idle: Who)
    requires Legal(call, idle) && call.found
    ensures call.i < |call.seen| && call.j < |call.seen[call.i].threads|
    ensures var p := call.seen[call.i]; var t := p.threads[call.j];
      && t.status == Runnable && (p.stopped ==> t.critical != 0)
      && call.after.current == Who(p.pid, t.tid) != idle
    ensures forall k: nat, l: nat ::
      k < |call.seen| && l < |call.seen[k].threads| && (k < call.i || (k == call.i && l < call.j)) ==>
        || call.seen[k].threads[l].status != Runnable || Who(call.seen[k].pid, call.seen[k].threads[l].tid) == idle
        || (call.seen[k].stopped && call.seen[k].threads[l].critical == 0)
  {
    forall k: nat, l: nat |
      k < |call.seen| && l < |call.seen[k].threads| && (k < call.i || (k == call.i && l < call.j))
      ensures !Eligible(call.seen[k], call.seen[k].threads[l], idle)
    {
      if k < call.i { assert NoneEligible(call.seen[k], |call.seen[k].threads|, idle); }
    }
  }

  /** A RUNNABLE thread other than the idle thread, in a process that is not stopped or in a critical section, is
      chosen unless the scan stops ahead of it. */
  lemma ReadyTaken(call: Call, idle: Who, p: nat, a: nat)
    requires Legal(call, idle) && p < |call.seen| && a < |call.seen[p].threads|
    requires Who(call.seen[p].pid, call.seen[p].threads[a].tid) != idle
    requires call.seen[p].threads[a].status == Runnable
    requires !call.seen[p].stopped || call.seen[p].threads[a].critical != 0
    ensures call.found && (call.i < p || (call.i == p && call.j <= a))
  {
    assert Eligible(call.seen[p], call.seen[p].threads[a], idle);
    assert !NoneEligible(call.seen[p], |call.seen[p].threads|, idle);
  }

  /** The idle thread is made current exactly if no thread could be chosen. */
  lemma IdleOnlyThen(call: Call, idle: Who)
    requires Legal(call, idle)
    ensures call.after.current == idle <==>
      forall k: nat, l: nat :: k < |call.seen| && l < |call.seen[k].threads| ==>
        || call.seen[k].threads[l].status != Runnable || Who(call.seen[k].pid, call.seen[k].threads[l].tid) == idle
        || (call.seen[k].stopped && call.seen[k].threads[l].critical == 0)
  {
    if call.found {
      ChosenReady(call, idle);
    } else {
      forall k: nat, l: nat | k < |call.seen| && l < |call.seen[k].threads|
        ensures !Eligible(call.seen[k], call.seen[k].threads[l], idle)
      {
        assert NoneEligible(call.seen[k], |call.seen[k].threads|, idle);
      }
    }
  }

  // ---------- between calls ----------

  predicate ThreadLater(t: Thread, u: Thread) { u.tid == t.tid && (u.status == Running ==> t.status == Running) }

  /** Statuses, critical sections and stops may change and threads may be added, but no thread is set
      RUNNING. */
  predicate ProcessLater(p: Process, q: Process) {
    && q.pid == p.pid && |p.threads| <= |q.threads|
    && (forall j :: 0 <= j < |p.threads| ==> ThreadLater(p.threads[j], q.threads[j]))
    && (forall j :: |p.threads| <= j < |q.threads| ==> q.threads[j].status != Running)
    && DistinctThreads(q.threads)
  }

  predicate Idles(p: Process) {
    DistinctThreads(p.threads) && forall j :: 0 <= j < |p.threads| ==> p.threads[j].status != Running
  }

  /** What may happen between two calls: any sleeping, waking, stopping and continuing, and new threads and
      processes at the ends of their lists. */
  predicate Between(s: State, n: State) {
    && n.current == s.current && |s.procs| <= |n.procs| && Distinct(n.procs)
    && (forall i :: 0 <= i < |s.procs| ==> ProcessLater(s.procs[i], n.procs[i]))
    && (forall i :: |s.procs| <= i < |n.procs| ==> Idles(n.procs[i]))
  }

  lemma BetweenSeat(s: State, n: State, who: Who, p: nat, a: nat)
    requires Between(s, n) && Seated(s.procs, who, p, a)
    ensures Seated(n.procs, who, p, a)
  {
    assert ProcessLater(s.procs[p], n.procs[p]);
    assert ThreadLater(s.procs[p].threads[a], n.procs[p].threads[a]);
  }

  lemma BetweenSane(s: State, n: State, idle: Who)
    requires Sane(s, idle) && Between(s, n)
    ensures Sane(n, idle)
  {
    forall i | 0 <= i < |n.procs| ensures Quiet(n.procs[i], n.current) {
      if i < |s.procs| {
        assert ProcessLater(s.procs[i], n.procs[i]) && Quiet(s.procs[i], s.current);
        forall j | 0 <= j < |n.procs[i].threads| && n.procs[i].threads[j].status == Running
          ensures n.current == Who(n.procs[i].pid, n.procs[i].threads[j].tid)
        {
          assert ThreadLater(s.procs[i].threads[j], n.procs[i].threads[j]);
        }
      } else {
        assert Idles(n.procs[i]);
      }
    }
    var p: nat, a: nat :| Seated(s.procs, idle, p, a);
    BetweenSeat(s, n, idle, p, a);
    if s.current != Nobody {
      var c: nat, d: nat :| Seated(s.procs, s.current, c, d);
      BetweenSeat(s, n, s.current, c, d);
    }
  }

  // ---------- fairness ----------

  ghost predicate Run(calls: seq<Call>, idle: Who) {
    && (forall k :: 0 <= k < |calls| ==> Legal(calls[k], idle))
    && (forall k :: 0 < k < |calls| ==> Between(calls[k - 1].after, calls[k].before))
  }

  /** `who` is runnable, and its process is not stopped or it is in a critical section. */
  predicate Ready(procs: seq<Process>, who: Who, idle: Who, p: nat, a: nat) {
    && Seated(procs, who, p, a) && who != idle
    && procs[p].threads[a].status == Runnable && (!procs[p].stopped || procs[p].threads[a].critical != 0)
  }

  /** `who` is in the list and not the thread that runs. */
  predicate Idle(s: State, who: Who, p: nat, a: nat) {
    Seated(s.procs, who, p, a) && s.procs[p].threads[a].status != Running
  }

  /** How far `who` is from being chosen, at most, when there are never more than `n` processes. */
  function Distance(s: State, who: Who, p: nat, a: nat, n: nat): nat
    requires Seated(s.procs, who, p, a)
  {
    a * n + if s.current.Who? && s.current.pid == who.pid then |s.procs| - 1 else p
  }

  lemma RestedSeat(s: State, rested: seq<Process>, idle: Who, who: Who, p: nat, a: nat) returns (p': nat, a': nat)
    requires Sane(s, idle) && Rested(s, rested) && Idle(s, who, p, a)
    ensures Seated(rested, who, p', a') && a' <= a
    ensures p' <= if s.current.Who? && s.current.pid == who.pid then |s.procs| - 1 else p
    ensures rested[p'].threads[a'] == s.procs[p].threads[a] && rested[p'].stopped == s.procs[p].stopped
  {
    p', a' := p, a;
    if s.current != Nobody {
      var c: nat, d: nat :| Seated(s.procs, s.current, c, d) && rested == Demoted(s.procs, c, d);
      p', a' := DemotedSeat(s.procs, c, d, who, p, a);
    }
  }

  lemma OneSeat(procs: seq<Process>, who: Who, p: nat, a: nat, q: nat, b: nat)
    requires Distinct(procs) && AllQuiet(procs, Nobody) && Seated(procs, who, p, a) && Seated(procs, who, q, b)
    ensures p == q && a == b
  {
    assert Quiet(procs[p], Nobody);
  }

  ghost predicate StaysReady(procs: seq<Process>, who: Who, idle: Who) {
    exists p: nat, a: nat :: Ready(procs, who, idle, p, a)
  }

  /** Where `who` sits when the scan comes to it. */
  lemma SeenSeat(call: Call, idle: Who, who: Who, p: nat, a: nat) returns (q: nat, b: nat)
    requires Sane(call.before, idle) && Legal(call, idle) && Idle(call.before, who, p, a)
    requires StaysReady(call.seen, who, idle)
    ensures Ready(call.seen, who, idle, q, b) && Seated(call.scanned, who, q, b) && b <= a
    ensures q <= if call.before.current.Who? && call.before.current.pid == who.pid then |call.before.procs| - 1 else p
  {
    q, b := RestedSeat(call.before, call.rested, idle, who, p, a);
    RestedSane(call.before, call.rested, idle);
    WokenQuiet(call.rested, call.seen);
    WokenSeat(call.rested, call.seen, who, q, b);
    WokenSeat(call.seen, call.scanned, who, q, b);
    var x: nat, y: nat :| Ready(call.seen, who, idle, x, y);
    OneSeat(call.seen, who, q, b, x, y);
  }

  /** Where `who` sits after a call that chose another thread. */
  lemma AfterSeat(call: Call, idle: Who, who: Who, q: nat, b: nat)
    requires Legal(call, idle) && Ready(call.seen, who, idle, q, b) && Seated(call.scanned, who, q, b)
    requires Distinct(call.seen) && call.after.current != who
    ensures call.found && (call.i < q || (call.i == q && call.j < b))
    ensures Seated(call.after.procs, who, if call.i < q then q - 1 else |call.scanned| - 1,
                   if call.i < q then b else b - 1)
    ensures call.i < q ==> !(call.after.current.Who? && call.after.current.pid == who.pid)
  {
    ReadyTaken(call, idle, q, b);
    var i, j := call.i, call.j;
    WokenSeat(call.seen, call.scanned, Who(call.seen[i].pid, call.seen[i].threads[j].tid), i, j);
    PromotedSeat(call.scanned, i, j, who, q, b);
  }

  /** A call that does not choose `who`, though it could when the scan came to it, brings it nearer. */
  lemma Nearer(call: Call, next: State, idle: Who, who: Who, p: nat, a: nat, n: nat) returns (p': nat, a': nat)
    requires Sane(call.before, idle) && Legal(call, idle) && Idle(call.before, who, p, a)
    requires StaysReady(call.seen, who, idle)
    requires Between(call.after, next) && |next.procs| <= n
    requires call.after.current != who
    ensures Seated(next.procs, who, p', a') && Distance(next, who, p', a', n) < Distance(call.before, who, p, a, n)
  {
    var q, b := SeenSeat(call, idle, who, p, a);
    RestedSane(call.before, call.rested, idle);
    WokenQuiet(call.rested, call.seen);
    AfterSeat(call, idle, who, q, b);
    p', a' := if call.i < q then q - 1 else |call.scanned| - 1, if call.i < q then b else b - 1;
    BetweenSeat(call.after, next, who, p', a');
    Closer(call.before, next, who, p, a, q, b, p', a', call.i, n);
  }

  lemma Closer(s: State, next: State, who: Who, p: nat, a: nat, q: nat, b: nat, p': nat, a': nat, i: nat, n: nat)
    requires Seated(s.procs, who, p, a) && Seated(next.procs, who, p', a') && b <= a && |next.procs| <= n
    requires q <= if s.current.Who? && s.current.pid == who.pid then |s.procs| - 1 else p
    requires i < q ==> p' == q - 1 && a' == b && !(next.current.Who? && next.current.pid == who.pid)
    requires i == q ==> a' + 1 == b
    requires i <= q
    ensures Distance(next, who, p', a', n) < Distance(s, who, p, a, n)
  {
    if i < q {
      assert b * n <= a * n;
    } else {
      assert (a' + 1) * n <= a * n;
      assert (a' + 1) * n == a' * n + n;
    }
  }

  /** Up to call `m` another thread was chosen every time. */
  ghost predicate NotYet(calls: seq<Call>, who: Who, m: nat) {
    forall k :: 0 <= k < m <= |calls| ==> calls[k].after.current != who
  }

  /** At call `m`, unless `who` has been chosen, it is ready when the scan comes to it, and there are at most `n`
      processes. */
  ghost predicate ReadyTill(calls: seq<Call>, idle: Who, who: Who, n: nat, m: nat)
    requires m < |calls|
  {
    NotYet(calls, who, m) ==> StaysReady(calls[m].seen, who, idle) && |calls[m].before.procs| <= n
  }

  /** A thread that is ready before the call is ready when the scan comes to it, unless a signal stops its process
      in between. */
  lemma ReadyWhenSeen(call: Call, idle: Who, who: Who, p: nat, a: nat)
    requires Sane(call.before, idle) && Legal(call, idle) && Ready(call.before.procs, who, idle, p, a)
    requires forall k :: 0 <= k < |call.seen| && call.seen[k].pid == who.pid && call.seen[k].stopped ==>
      k < |call.rested| && call.rested[k].stopped
    ensures StaysReady(call.seen, who, idle)
  {
    var q, b := RestedSeat(call.before, call.rested, idle, who, p, a);
    WokenSeat(call.rested, call.seen, who, q, b);
    assert WokenProcess(call.rested[q], call.seen[q]);
    assert WokenThread(call.rested[q].threads[b], call.seen[q].threads[b]);
    assert Ready(call.seen, who, idle, q, b);
  }

  /** A thread that is not current does not run. */
  lemma NotCurrent(s: State, idle: Who, who: Who, p: nat, a: nat)
    requires Sane(s, idle) && Seated(s.procs, who, p, a) && s.current != who
    ensures Idle(s, who, p, a)
  {
    assert Quiet(s.procs[p], s.current);
  }

  lemma BetweenSame(s: State, idle: Who)
    requires Sane(s, idle)
    ensures Between(s, s)
  {
    forall i | 0 <= i < |s.procs| ensures ProcessLater(s.procs[i], s.procs[i]) {
      assert Quiet(s.procs[i], s.current);
    }
  }

  lemma {:induction false} ChosenFrom(calls: seq<Call>, idle: Who, who: Who, n: nat, k: nat, p: nat, a: nat)
    returns (r: nat)
    requires Run(calls, idle) && k < |calls| && Sane(calls[k].before, idle) && NotYet(calls, who, k)
    requires forall m :: 0 <= m < |calls| ==> ReadyTill(calls, idle, who, n, m)
    requires Idle(calls[k].before, who, p, a)
    requires k + Distance(calls[k].before, who, p, a, n) < |calls|
    ensures k <= r <= k + Distance(calls[k].before, who, p, a, n) && calls[r].after.current == who
    decreases |calls| - k
  {
    r := k;
    if calls[k].after.current != who {
      assert ReadyTill(calls, idle, who, n, k);
      assert k + 1 < |calls| ==> ReadyTill(calls, idle, who, n, k + 1);
      CallSane(calls[k], idle);
      BetweenSame(calls[k].after, idle);
      var next := if k + 1 < |calls| then calls[k + 1].before else calls[k].after;
      var p', a' := Nearer(calls[k], next, idle, who, p, a, n);
      if k + 1 < |calls| {
        BetweenSane(calls[k].after, next, idle);
        NotCurrent(next, idle, who, p', a');
        r := ChosenFrom(calls, idle, who, n, k + 1, p', a');
      }
    }
  }

  /** A thread that is runnable, in a process that is not stopped, whenever the scan comes to it until it is
      chosen, is chosen within (threads ahead of it + 1) times (most processes) calls, whatever else sleeps, wakes,
      is signalled or is created in the meantime, also during the calls. */
  lemma Fair(calls: seq<Call>, idle: Who, who: Who, n: nat, p: nat, a: nat)
    requires Run(calls, idle) && 0 < (a + 1) * n <= |calls| && Sane(calls[0].before, idle)
    requires forall m :: 0 <= m < |calls| ==> ReadyTill(calls, idle, who, n, m)
    requires Idle(calls[0].before, who, p, a)
    ensures exists r :: 0 <= r < (a + 1) * n && calls[r].after.current == who
  {
    assert (a + 1) * n == a * n + n;
    assert ReadyTill(calls, idle, who, n, 0);
    var r := ChosenFrom(calls, idle, who, n, 0, p, a);
    assert calls[r].after.current == who;
  }

  /** At most one thread is RUNNING in every state of every run. */
  lemma {:induction false} RunSane(calls: seq<Call>, idle: Who, k: nat)
    requires Run(calls, idle) && k < |calls| && Sane(calls[0].before, idle)
    ensures Sane(calls[k].before, idle) && Sane(calls[k].after, idle)
  {
    if k > 0 {
      RunSane(calls, idle, k - 1);
      BetweenSane(calls[k - 1].after, calls[k].before, idle);
    }
    CallSane(calls[k], idle);
  }

  // ---------- the code ----------

  /** A thread the scan has passed over. */
  function PassedOver(p: Process, t: Thread, cancelled: Who -> bool, idle: Who): Thread {
    var who := Who(p.pid, t.tid);
    if who != idle && t.status == InterruptibleSleep && cancelled(who) then t.(status := Runnable) else t
  }

  /** What an alarm or a signal does to thread `d` of process `k`, or to process `k`. */
  datatype Event = Wake(k: nat, d: nat) | Halt(k: nat, stopped: bool)

  class Scheduler {
    var procs: seq<Process>
    var current: Who
    const idle: Who

    ghost function Now(): State
      reads this
    {
      State(procs, current)
    }

    /** push_process_to_end. */
    method PushProcess(c: nat)
      requires c < |procs|
      modifies this`procs
      ensures procs == ToEnd(old(procs), c)
    {
      if c + 1 == |procs| {
        assert ToEnd(procs, c) == procs;
        return;
      }
      procs := procs[..c] + procs[c + 1..] + [procs[c]];
    }

    /** push_thread_to_end. */
    method PushThread(c: nat, d: nat)
      requires c < |procs| && d < |procs[c].threads|
      modifies this`procs
      ensures procs == old(procs)[c := old(procs)[c].(threads := ToEnd(old(procs)[c].threads, d))]
    {
      var p := procs[c];
      if d + 1 == |p.threads| {
        assert ToEnd(p.threads, d) == p.threads;
        return;
      }
      procs := procs[c := p.(threads := p.threads[..d] + p.threads[d + 1..] + [p.threads[d]])];
    }

    method SetStatus(c: nat, d: nat, status: Status)
      requires c < |procs| && d < |procs[c].threads|
      modifies this`procs
      ensures procs == Assigned(old(procs), c, d, status)
    {
      procs := Assigned(procs, c, d, status);
    }

    /** Lines 433-439. */
    method Rest()
      requires Sane(Now(), idle)
      modifies this`procs
      ensures Rested(old(Now()), procs)
    {
      if current == Nobody { return; }
      var c: nat, d: nat :| c < |procs| && procs[c].pid == current.pid
                            && d < |procs[c].threads| && procs[c].threads[d].tid == current.tid;
      Demote(c, d);
    }

    method Demote(c: nat, d: nat)
      requires c < |procs| && d < |procs[c].threads|
      modifies this`procs
      ensures procs == Demoted(old(procs), c, d)
    {
      DemotedBy(procs, c, d);
      PushProcess(c);
      var last := |procs| - 1;
      if procs[last].threads[d].status == Running {
        SetStatus(last, d, Runnable);
        PushThread(last, d);
      }
    }

    /** Lines 506-511: what alarms and pending signals do, to the process and to the parent they may be reported
        to.  Any number of threads are woken, and processes stopped or continued. */
    method Deliver(events: seq<Event>)
      modifies this`procs
      ensures Woken(old(procs), procs) && (events == [] ==> procs == old(procs))
    {
      var n := 0;
      while n < |events|
        invariant n <= |events| && Woken(old(procs), procs) && (n == 0 ==> procs == old(procs))
      {
        ghost var before := procs;
        DeliverOne(events[n]);
        WokenTwice(old(procs), before, procs);
        n := n + 1;
      }
    }

    method DeliverOne(e: Event)
      modifies this`procs
      ensures Woken(old(procs), procs)
    {
      if e.k < |procs| {
        if e.Halt? {
          procs := procs[e.k := procs[e.k].(stopped := e.stopped)];
        } else if e.d < |procs[e.k].threads| && procs[e.k].threads[e.d].status != Running {
          SetStatus(e.k, e.d, Runnable);
        }
      }
    }

    /** Lines 444 and 506-578: pass over processes and threads until one can run.  `events` are those delivered when
        the scan comes to a process, and `cancelled` are the threads with a cancellation pending. */
    method Scan(events: nat -> seq<Event>, cancelled: Who -> bool)
      returns (found: bool, i: nat, j: nat, ghost seen: seq<Process>)
      modifies this`procs
      ensures Woken(old(procs), seen) && Woken(seen, procs)
      ensures if found then Takes(seen, i, j, idle) else AllIneligible(seen, idle)
      ensures (forall k :: events(k) == []) ==> seen == old(procs)
      ensures (forall k :: events(k) == []) && (forall w :: !cancelled(w)) ==> procs == old(procs)
    {
      found, i, j, seen := false, 0, 0, procs;
      while i < |procs|
        invariant i <= |procs| && Woken(old(procs), seen) && Woken(seen, procs)
        invariant Passed(seen, i, idle) && SameFrom(procs, seen, i)
        invariant (forall k :: events(k) == []) ==> seen == old(procs)
        invariant (forall k :: events(k) == []) && (forall w :: !cancelled(w)) ==> procs == old(procs)
      {
        ghost var was := seen;
        found, j, seen := Turn(i, events(i), cancelled, was);
        WokenTwice(old(procs), was, seen);
        if found { return; }
        i := i + 1;
      }
    }

    /** The scan comes to process `i`. */
    method Turn(i: nat, events: seq<Event>, cancelled: Who -> bool, ghost was: seq<Process>)
      returns (found: bool, j: nat, ghost seen: seq<Process>)
      requires i < |procs| && Woken(was, procs) && SameFrom(procs, was, i) && Passed(was, i, idle)
      modifies this`procs
      ensures Woken(was, seen) && Woken(seen, procs) && SameFrom(procs, seen, i + 1)
      ensures if found then Takes(seen, i, j, idle) else Passed(seen, i + 1, idle)
      ensures events == [] ==> seen == was
      ensures events == [] && (forall w :: !cancelled(w)) ==> procs == old(procs)
    {
      seen := Reach(i, events, was);
      found, j := ScanProcess(i, cancelled, seen);
      assert forall k :: 0 <= k < i ==> seen[k] == was[k];
    }

    method Reach(i: nat, events: seq<Event>, ghost was: seq<Process>) returns (ghost seen: seq<Process>)
      requires i < |procs| && Woken(was, procs) && SameFrom(procs, was, i)
      modifies this`procs
      ensures Woken(was, seen) && Woken(seen, procs) && SameFrom(procs, seen, i)
      ensures forall k :: 0 <= k < i ==> seen[k] == was[k]
      ensures events == [] ==> seen == was && procs == old(procs)
    {
      ghost var before := procs;
      Deliver(events);
      seen := was[..i] + procs[i..];
      Reached(was, before, procs, i);
    }

    /** Lines 515-577: the threads of process `i`; lines 558-571 wake a sleeper that is to be cancelled. */
    method ScanProcess(i: nat, cancelled: Who -> bool, ghost seen: seq<Process>) returns (found: bool, j: nat)
      requires i < |procs| && Woken(seen, procs) && procs[i] == seen[i]
      modifies this`procs
      ensures Woken(seen, procs)
      ensures forall k :: 0 <= k < |procs| && k != i ==> procs[k] == old(procs)[k]
      ensures var p := seen[i];
        if found then j < |p.threads| && NoneEligible(p, j, idle) && Eligible(p, p.threads[j], idle)
        else NoneEligible(p, |p.threads|, idle)
      ensures forall l :: 0 <= l < (if found then j else |seen[i].threads|) ==>
        procs[i].threads[l] == PassedOver(seen[i], seen[i].threads[l], cancelled, idle)
      ensures (forall w :: !cancelled(w)) ==> procs == old(procs)
    {
      ghost var p := procs[i];
      j := 0;
      while j < |procs[i].threads|
        invariant |procs| == |old(procs)| && j <= |procs[i].threads| && Woken(seen, procs)
        invariant procs[i] == p.(threads := procs[i].threads) && |procs[i].threads| == |p.threads|
        invariant forall k :: 0 <= k < |procs| && k != i ==> procs[k] == old(procs)[k]
        invariant forall k :: j <= k < |p.threads| ==> procs[i].threads[k] == p.threads[k]
        invariant forall l :: 0 <= l < j ==>
          procs[i].threads[l] == PassedOver(p, p.threads[l], cancelled, idle)
        invariant NoneEligible(p, j, idle)
        invariant (forall w :: !cancelled(w)) ==> procs == old(procs)
      {
        var t := procs[i].threads[j];
        var who := Who(procs[i].pid, t.tid);
        if who != idle {
          if t.status == Runnable && !(procs[i].stopped && t.critical == 0) { return true, j; }
          if t.status == InterruptibleSleep && cancelled(who) {
            WokenAssigned(seen, procs, i, j);
            SetStatus(i, j, Runnable);
          }
        }
        j := j + 1;
      }
      found := false;
    }

    /** Lines 526-528. */
    method Promote(i: nat, j: nat)
      requires i < |procs| && j < |procs[i].threads|
      modifies this`procs
      ensures procs == Promoted(old(procs), i, j)
    {
      SetStatus(i, j, Running);
      PushProcess(i);
      PushThread(|procs| - 1, j);
    }

    /** schedule(), unless the scheduler lock is taken. */
    method Schedule(locked: bool, events: nat -> seq<Event>, cancelled: Who -> bool) returns (ghost call: Call)
      requires Sane(Now(), idle)
      modifies this
      ensures Sane(Now(), idle)
      ensures locked ==> Now() == old(Now())
      ensures !locked ==> Legal(call, idle) && call.before == old(Now()) && call.after == Now()
      ensures !locked && (forall k :: events(k) == []) ==> call.seen == call.rested
      ensures !locked && (forall k :: events(k) == []) && (forall w :: !cancelled(w)) ==> call.scanned == call.rested
    {
      ghost var before := Now();
      if locked { return Call(before, procs, procs, procs, false, 0, 0, before); }
      Rest();
      ghost var rested := procs;
      var found, i, j;
      ghost var seen;
      found, i, j, seen := Scan(events, cancelled);
      ghost var scanned := procs;
      if found {
        assert WokenProcess(seen[i], scanned[i]) && WokenThread(seen[i].threads[j], scanned[i].threads[j]);
        var chosen := Who(procs[i].pid, procs[i].threads[j].tid);
        Promote(i, j);
        current := chosen;
      } else {
        current := idle;
      }
      call := Call(before, rested, seen, scanned, found, i, j, Now());
      CallSane(call, idle);
    }

    /** sched_add_process: a new process goes to the end of the list. */
    method AddProcess(p: Process)
      requires Sane(Now(), idle) && Idles(p) && forall i :: 0 <= i < |procs| ==> procs[i].pid != p.pid
      modifies this`procs
      ensures procs == old(procs) + [p]
      ensures Between(old(Now()), Now()) && Sane(Now(), idle)
    {
      ghost var before := Now();
      BetweenSame(before, idle);
      procs := procs + [p];
      BetweenSane(before, Now(), idle);
    }

    /** A new thread goes to the end of its process. */
    method AddThread(c: nat, t: Thread)
      requires Sane(Now(), idle) && c < |procs| && t.status != Running
      requires forall j :: 0 <= j < |procs[c].threads| ==> procs[c].threads[j].tid != t.tid
      modifies this`procs
      ensures procs == old(procs)[c := old(procs)[c].(threads := old(procs)[c].threads + [t])]
      ensures Between(old(Now()), Now()) && Sane(Now(), idle)
    {
      ghost var before := Now();
      BetweenSame(before, idle);
      procs := procs[c := procs[c].(threads := procs[c].threads + [t])];
      assert ProcessLater(before.procs[c], procs[c]) by {
        assert Quiet(before.procs[c], current);
      }
      BetweenSane(before, Now(), idle);
    }

    /** A thread goes to sleep, waits or is woken. */
    method Change(c: nat, d: nat, status: Status)
      requires Sane(Now(), idle) && c < |procs| && d < |procs[c].threads| && status != Running
      modifies this`procs
      ensures procs == Assigned(old(procs), c, d, status)
      ensures Between(old(Now()), Now()) && Sane(Now(), idle)
    {
      ghost var before := Now();
      BetweenSame(before, idle);
      SetStatus(c, d, status);
      assert ProcessLater(before.procs[c], procs[c]) by {
        assert Quiet(before.procs[c], current);
      }
      BetweenSane(before, Now(), idle);
    }
  }
}
