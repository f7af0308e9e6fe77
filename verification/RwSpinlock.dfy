/** The readers-writer spinlock of src/kernel_sync_primitives.c:107-148, for any number of threads and every
    interleaving of its atomic steps. */
module RwSpinlock {
  import opened Options

  /** Where a thread is in a lock operation.  `Spin` states wait for a lock word. */
  datatype Pc =
    | Idle
    | ReadSpin | ReadCount | ReadSpinW | ReadHasW | ReadUnlock
    | Reading
    | LeaveSpin | LeaveCount | LeaveUnlockW | LeaveUnlock
    | WriteSpin | Writing | Downgraded
    | Panic

  /** The fields of rw_spinlock_t. */
  datatype Lock = Lock(value: nat, vlock: bool, wlock: bool)

  /** `crit` holds each thread's in_critical_section. */
  datatype State = State(pc: seq<Pc>, crit: seq<int>, lock: Lock)

  /** A scheduling choice: the thread to run, and which of two operations to begin where it has a choice. */
  datatype Turn = Turn(thread: nat, other: bool)

  /** What an atomic step does: where the thread goes, by how much its counter changes, and the lock. */
  datatype Effect = Effect(pc: Pc, crit: int, lock: Lock)

  function Start(n: nat): State { State(seq(n, _ => Idle), seq(n, _ => 0), Lock(0, false, false)) }

  /** One atomic step of a thread at `p`, or None where it spins.  A thread's own counter changes together
      with its next access to the lock. */
  function Act(p: Pc, k: Lock, other: bool): Option<Effect> {
    match p
    case Idle => Some(Effect(if other then WriteSpin else ReadSpin, 1, k))
    // rw_spinlock_acquire_read
    case ReadSpin => if k.vlock then None else Some(Effect(ReadCount, 0, k.(vlock := true)))
    case ReadCount =>
      if k.value + 1 == 1 then Some(Effect(ReadSpinW, 1, k.(value := k.value + 1)))
      else Some(Effect(ReadUnlock, 0, k.(value := k.value + 1)))
    case ReadSpinW => if k.wlock then None else Some(Effect(ReadHasW, 0, k.(wlock := true)))
    case ReadHasW => Some(Effect(ReadUnlock, -1, k))
    case ReadUnlock => Some(Effect(Reading, -1, k.(vlock := false)))
    // rw_spinlock_release_read
    case Reading => Some(Effect(LeaveSpin, 1, k))
    case LeaveSpin => if k.vlock then None else Some(Effect(LeaveCount, 0, k.(vlock := true)))
    case LeaveCount =>
      if k.value == 0 then Some(Effect(Panic, 0, k))
      else if k.value - 1 == 0 then Some(Effect(LeaveUnlockW, 1, k.(value := k.value - 1)))
      else Some(Effect(LeaveUnlock, 0, k.(value := k.value - 1)))
    case LeaveUnlockW => Some(Effect(LeaveUnlock, -1, k.(wlock := false)))
    case LeaveUnlock => Some(Effect(Idle, -1, k.(vlock := false)))
    // rw_spinlock_acquire_write, then rw_spinlock_release_write or rw_spinlock_downgrade
    case WriteSpin => if k.wlock then None else Some(Effect(Writing, 0, k.(wlock := true)))
    case Writing =>
      if other then Some(Effect(Downgraded, 0, k.(value := k.value + 1)))
      else Some(Effect(Idle, -1, k.(wlock := false)))
    case Downgraded => Some(Effect(Reading, -1, k))
    case Panic => None
  }

  predicate Enabled(s: State, turn: Turn) {
    turn.thread < |s.pc| == |s.crit| && Act(s.pc[turn.thread], s.lock, turn.other).Some?
  }

  /** A thread that spins, or an absent one, leaves the state alone. */
  function Take(s: State, turn: Turn): State {
    if !Enabled(s, turn) then s
    else
      var t := turn.thread;
      var e := Act(s.pc[t], s.lock, turn.other).value;
      State(s.pc[t := e.pc], s.crit[t := s.crit[t] + e.crit], e.lock)
  }

  function Run(s: State, turns: seq<Turn>): State
    decreases |turns|
  {
    if turns == [] then s else Take(Run(s, turns[..|turns| - 1]), turns[|turns| - 1])
  }

  // ---------- a thread that is not in anybody's way ----------

  /** The thread goes on `n` times. */
  function Times(s: State, turn: Turn, n: nat): State
    decreases n
  {
    if n == 0 then s else Times(Take(s, turn), turn, n - 1)
  }

  ghost predicate At(s: State, n: State, t: nat, p: Pc, crit: int, lock: Lock)
    requires t < |s.pc| == |s.crit|
  {
    n == State(s.pc[t := p], s.crit[t := s.crit[t] + crit], lock)
  }

  lemma Here(s: State, t: nat)
    requires t < |s.pc| == |s.crit|
    ensures At(s, s, t, s.pc[t], 0, s.lock)
  {
    assert s.pc[t := s.pc[t]] == s.pc && s.crit[t := s.crit[t]] == s.crit;
  }

  /** After one more step. */
  lemma Further(s: State, n: State, u: Turn, p: Pc, crit: int, k: Lock, e: Effect)
    requires u.thread < |s.pc| == |s.crit| && At(s, n, u.thread, p, crit, k) && Act(p, k, u.other) == Some(e)
    ensures At(s, Take(n, u), u.thread, e.pc, crit + e.crit, e.lock)
  {
    var t := u.thread;
    assert s.pc[t := p][t := e.pc] == s.pc[t := e.pc];
    assert s.crit[t := s.crit[t] + crit][t := s.crit[t] + crit + e.crit] == s.crit[t := s.crit[t] + crit + e.crit];
  }

  /** On a free lock a thread reads after six steps, outside any critical section, and holds the write lock for all
      readers. */
  lemma ReadsAlone(s: State, t: nat)
    requires t < |s.pc| == |s.crit| && s.pc[t] == Idle && s.lock == Lock(0, false, false)
    ensures At(s, Times(s, Turn(t, false), 6), t, Reading, 0, Lock(1, false, true))
  {
    var u, k := Turn(t, false), s.lock;
    var s1 := Take(s, u);
    var s2 := Take(s1, u);
    var s3 := Take(s2, u);
    var s4 := Take(s3, u);
    var s5 := Take(s4, u);
    var s6 := Take(s5, u);
    Here(s, t);
    Further(s, s, u, Idle, 0, k, Effect(ReadSpin, 1, k));
    Further(s, s1, u, ReadSpin, 1, k, Effect(ReadCount, 0, Lock(0, true, false)));
    Further(s, s2, u, ReadCount, 1, Lock(0, true, false), Effect(ReadSpinW, 1, Lock(1, true, false)));
    Further(s, s3, u, ReadSpinW, 2, Lock(1, true, false), Effect(ReadHasW, 0, Lock(1, true, true)));
    Further(s, s4, u, ReadHasW, 2, Lock(1, true, true), Effect(ReadUnlock, -1, Lock(1, true, true)));
    Further(s, s5, u, ReadUnlock, 1, Lock(1, true, true), Effect(Reading, -1, Lock(1, false, true)));
    assert Times(s6, u, 0) == s6 && Times(s5, u, 1) == s6 && Times(s4, u, 2) == s6 && Times(s3, u, 3) == s6;
    assert Times(s2, u, 4) == s6 && Times(s1, u, 5) == s6 && Times(s, u, 6) == s6;
  }

  /** Where others read, one more reads after four steps. */
  lemma ReadsWithOthers(s: State, t: nat)
    requires t < |s.pc| == |s.crit| && s.pc[t] == Idle && s.lock.value > 0 && !s.lock.vlock
    ensures At(s, Times(s, Turn(t, false), 4), t, Reading, 0, s.lock.(value := s.lock.value + 1))
  {
    var u, k := Turn(t, false), s.lock;
    var k1, k2 := k.(vlock := true), k.(vlock := true, value := k.value + 1);
    var s1 := Take(s, u);
    var s2 := Take(s1, u);
    var s3 := Take(s2, u);
    var s4 := Take(s3, u);
    Here(s, t);
    Further(s, s, u, Idle, 0, k, Effect(ReadSpin, 1, k));
    Further(s, s1, u, ReadSpin, 1, k, Effect(ReadCount, 0, k1));
    Further(s, s2, u, ReadCount, 1, k1, Effect(ReadUnlock, 0, k2));
    Further(s, s3, u, ReadUnlock, 1, k2, Effect(Reading, -1, k2.(vlock := false)));
    assert Times(s4, u, 0) == s4 && Times(s3, u, 1) == s4 && Times(s2, u, 2) == s4;
    assert Times(s1, u, 3) == s4 && Times(s, u, 4) == s4;
  }

  /** One of several readers leaves. */
  lemma LeavesOthers(s: State, t: nat)
    requires t < |s.pc| == |s.crit| && s.pc[t] == Reading && s.lock.value > 1 && !s.lock.vlock
    ensures At(s, Times(s, Turn(t, false), 4), t, Idle, 0, s.lock.(value := s.lock.value - 1))
  {
    var u, k := Turn(t, false), s.lock;
    var k1, k2 := k.(vlock := true), k.(vlock := true, value := k.value - 1);
    var s1 := Take(s, u);
    var s2 := Take(s1, u);
    var s3 := Take(s2, u);
    var s4 := Take(s3, u);
    Here(s, t);
    Further(s, s, u, Reading, 0, k, Effect(LeaveSpin, 1, k));
    Further(s, s1, u, LeaveSpin, 1, k, Effect(LeaveCount, 0, k1));
    Further(s, s2, u, LeaveCount, 1, k1, Effect(LeaveUnlock, 0, k2));
    Further(s, s3, u, LeaveUnlock, 1, k2, Effect(Idle, -1, k2.(vlock := false)));
    assert Times(s4, u, 0) == s4 && Times(s3, u, 1) == s4 && Times(s2, u, 2) == s4;
    assert Times(s1, u, 3) == s4 && Times(s, u, 4) == s4;
  }

  /** The last reader leaves and frees the write lock. */
  lemma LeavesLast(s: State, t: nat)
    requires t < |s.pc| == |s.crit| && s.pc[t] == Reading && s.lock == Lock(1, false, true)
    ensures At(s, Times(s, Turn(t, false), 5), t, Idle, 0, Lock(0, false, false))
  {
    var u, k := Turn(t, false), s.lock;
    var s1 := Take(s, u);
    var s2 := Take(s1, u);
    var s3 := Take(s2, u);
    var s4 := Take(s3, u);
    var s5 := Take(s4, u);
    Here(s, t);
    Further(s, s, u, Reading, 0, k, Effect(LeaveSpin, 1, k));
    Further(s, s1, u, LeaveSpin, 1, k, Effect(LeaveCount, 0, Lock(1, true, true)));
    Further(s, s2, u, LeaveCount, 1, Lock(1, true, true), Effect(LeaveUnlockW, 1, Lock(0, true, true)));
    Further(s, s3, u, LeaveUnlockW, 2, Lock(0, true, true), Effect(LeaveUnlock, -1, Lock(0, true, false)));
    Further(s, s4, u, LeaveUnlock, 1, Lock(0, true, false), Effect(Idle, -1, Lock(0, false, false)));
    assert Times(s5, u, 0) == s5 && Times(s4, u, 1) == s5 && Times(s3, u, 2) == s5;
    assert Times(s2, u, 3) == s5 && Times(s1, u, 4) == s5 && Times(s, u, 5) == s5;
  }

  /** Where nobody holds the write lock a thread writes after two steps, in a critical section, and leaves with one
      more. */
  lemma WritesAlone(s: State, t: nat)
    requires t < |s.pc| == |s.crit| && s.pc[t] == Idle && !s.lock.wlock
    ensures var n := Times(s, Turn(t, true), 2);
      && At(s, n, t, Writing, 1, s.lock.(wlock := true))
      && At(s, Take(n, Turn(t, false)), t, Idle, 0, s.lock)
  {
    var u, k := Turn(t, true), s.lock;
    var s1 := Take(s, u);
    var s2 := Take(s1, u);
    Here(s, t);
    Further(s, s, u, Idle, 0, k, Effect(WriteSpin, 1, k));
    Further(s, s1, u, WriteSpin, 1, k, Effect(Writing, 0, k.(wlock := true)));
    Further(s, s2, Turn(t, false), Writing, 1, k.(wlock := true), Effect(Idle, -1, k));
    assert Times(s2, u, 0) == s2 && Times(s1, u, 1) == s2 && Times(s, u, 2) == s2;
  }

  /** Two threads read at the same time. */
  lemma TwoRead()
    ensures Times(Times(Start(2), Turn(0, false), 6), Turn(1, false), 4).pc == [Reading, Reading]
  {
    var s := Start(2);
    ReadsAlone(s, 0);
    ReadsWithOthers(Times(s, Turn(0, false), 6), 1);
  }

  // ---------- counting threads ----------

  /** How many threads are at `p`. */
  function Tally(pc: seq<Pc>, p: Pc): nat {
    if pc == [] then 0 else (if pc[0] == p then 1 else 0) + Tally(pc[1..], p)
  }

  lemma {:induction false} TallyMove(pc: seq<Pc>, t: nat, q: Pc, p: Pc)
    requires t < |pc|
    ensures Tally(pc[t := q], p) == Tally(pc, p) - (if pc[t] == p then 1 else 0) + (if q == p then 1 else 0)
  {
    if t == 0 {
      assert pc[t := q][1..] == pc[1..];
    } else {
      assert pc[t := q][1..] == pc[1..][t - 1 := q];
      TallyMove(pc[1..], t - 1, q, p);
    }
  }

  lemma {:induction false} TallyHas(pc: seq<Pc>, t: nat)
    requires t < |pc|
    ensures Tally(pc, pc[t]) > 0
  {
    if t > 0 { TallyHas(pc[1..], t - 1); }
  }

  lemma {:induction false} TallyFind(pc: seq<Pc>, p: Pc) returns (t: nat)
    requires Tally(pc, p) > 0
    ensures t < |pc| && pc[t] == p
  {
    if pc[0] == p { t := 0; } else { var u := TallyFind(pc[1..], p); t := u + 1; }
  }

  lemma {:induction false} TallyStart(n: nat, p: Pc)
    ensures Tally(seq(n, _ => Idle), p) == if p == Idle then n else 0
  {
    if n > 0 {
      assert seq(n, _ => Idle)[1..] == seq(n - 1, _ => Idle);
      TallyStart(n - 1, p);
    }
  }

  // ---------- what every step keeps ----------

  function Census(pc: seq<Pc>): Pc -> nat { p => Tally(pc, p) }

  /** Readers inside: they entered and have not yet counted themselves out. */
  function Readers(c: Pc -> nat): nat {
    c(ReadHasW) + c(ReadUnlock) + c(Reading) + c(LeaveSpin) + c(LeaveCount) + c(Downgraded)
  }

  /** Threads between taking and releasing `vlock`. */
  function Counting(c: Pc -> nat): nat {
    c(ReadCount) + c(ReadSpinW) + c(ReadHasW) + c(ReadUnlock) + c(LeaveCount) + c(LeaveUnlockW) + c(LeaveUnlock)
  }

  ghost predicate Legal(c: Pc -> nat, k: Lock) { Lawful(TotalsOf(c), k) }

  /** What a thread's critical-section counter holds at `p`. */
  function Crit(p: Pc): int {
    match p
    case Idle | Reading => 0
    case ReadSpinW | ReadHasW | LeaveUnlockW => 2
    case _ => 1
  }

  ghost predicate CritAt(s: State, t: nat)
    requires t < |s.pc| == |s.crit|
  {
    s.crit[t] == Crit(s.pc[t])
  }

  ghost predicate AllCrit(s: State) {
    |s.pc| == |s.crit| && forall t :: 0 <= t < |s.pc| ==> CritAt(s, t)
  }

  ghost predicate Inv(s: State) { AllCrit(s) && Legal(Census(s.pc), s.lock) }

  ghost predicate Moved(c: Pc -> nat, d: Pc -> nat, p: Pc, q: Pc) {
    c(p) > 0 && forall x :: d(x) == c(x) - (if p == x then 1 else 0) + (if q == x then 1 else 0)
  }

  lemma Recount(pc: seq<Pc>, t: nat, q: Pc)
    requires t < |pc|
    ensures Moved(Census(pc), Census(pc[t := q]), pc[t], q)
  {
    TallyHas(pc, t);
    forall p ensures Census(pc[t := q])(p)
      == Census(pc)(p) - (if pc[t] == p then 1 else 0) + (if q == p then 1 else 0)
    {
      TallyMove(pc, t, q, p);
    }
  }

  function IsReader(p: Pc): nat {
    match p
    case ReadHasW | ReadUnlock | Reading | LeaveSpin | LeaveCount | Downgraded => 1
    case _ => 0
  }

  function IsCounting(p: Pc): nat {
    match p
    case ReadCount | ReadSpinW | ReadHasW | ReadUnlock | LeaveCount | LeaveUnlockW | LeaveUnlock => 1
    case _ => 0
  }

  function Bit(p: Pc, x: Pc): nat { if p == x then 1 else 0 }

  lemma MovedOne(c: Pc -> nat, d: Pc -> nat, p: Pc, q: Pc, x: Pc)
    requires Moved(c, d, p, q)
    ensures d(x) == c(x) - Bit(p, x) + Bit(q, x)
  {
  }

  lemma ReaderBits(p: Pc)
    ensures IsReader(p) == Bit(p, ReadHasW) + Bit(p, ReadUnlock) + Bit(p, Reading) + Bit(p, LeaveSpin)
                           + Bit(p, LeaveCount) + Bit(p, Downgraded)
  {
  }

  lemma CountingBits(p: Pc)
    ensures IsCounting(p) == Bit(p, ReadCount) + Bit(p, ReadSpinW) + Bit(p, ReadHasW) + Bit(p, ReadUnlock)
                             + Bit(p, LeaveCount) + Bit(p, LeaveUnlockW) + Bit(p, LeaveUnlock)
  {
  }

  lemma MovedReaders(c: Pc -> nat, d: Pc -> nat, p: Pc, q: Pc)
    requires Moved(c, d, p, q)
    ensures Readers(d) == Readers(c) - IsReader(p) + IsReader(q)
  {
    MovedOne(c, d, p, q, ReadHasW);
    MovedOne(c, d, p, q, ReadUnlock);
    MovedOne(c, d, p, q, Reading);
    MovedOne(c, d, p, q, LeaveSpin);
    MovedOne(c, d, p, q, LeaveCount);
    MovedOne(c, d, p, q, Downgraded);
    ReaderBits(p);
    ReaderBits(q);
  }

  lemma MovedCounting(c: Pc -> nat, d: Pc -> nat, p: Pc, q: Pc)
    requires Moved(c, d, p, q)
    ensures Counting(d) == Counting(c) - IsCounting(p) + IsCounting(q)
  {
    MovedOne(c, d, p, q, ReadCount);
    MovedOne(c, d, p, q, ReadSpinW);
    MovedOne(c, d, p, q, ReadHasW);
    MovedOne(c, d, p, q, ReadUnlock);
    MovedOne(c, d, p, q, LeaveCount);
    MovedOne(c, d, p, q, LeaveUnlockW);
    MovedOne(c, d, p, q, LeaveUnlock);
    CountingBits(p);
    CountingBits(q);
  }

  /** The numbers that Legal speaks of. */
  datatype Totals = Totals(readers: int, counting: int, spinW: int, writing: int, unlockW: int, panic: int)

  function TotalsOf(c: Pc -> nat): Totals {
    Totals(Readers(c), Counting(c), c(ReadSpinW), c(Writing), c(LeaveUnlockW), c(Panic))
  }

  /** What one thread contributes to them. */
  function Weight(p: Pc): Totals {
    Totals(IsReader(p), IsCounting(p), Bit(p, ReadSpinW), Bit(p, Writing), Bit(p, LeaveUnlockW), Bit(p, Panic))
  }

  function Shifted(n: Totals, w: Totals, v: Totals): Totals {
    Totals(n.readers - w.readers + v.readers, n.counting - w.counting + v.counting, n.spinW - w.spinW + v.spinW,
           n.writing - w.writing + v.writing, n.unlockW - w.unlockW + v.unlockW, n.panic - w.panic + v.panic)
  }

  /** Enough threads are counted for one of them to contribute `w`, and the others that hold `vlock` too. */
  predicate AtLeast(n: Totals, w: Totals) {
    && n.readers >= w.readers >= 0 && n.counting >= w.counting >= 0 && n.spinW >= w.spinW >= 0
    && n.writing >= w.writing >= 0 && n.unlockW >= w.unlockW >= 0 && n.panic >= w.panic >= 0
    && n.counting - w.counting >= (n.spinW - w.spinW) + (n.unlockW - w.unlockW)
  }

  predicate Lawful(n: Totals, k: Lock) {
    && n.panic == 0
    && k.value == n.readers + n.spinW
    && n.counting == (if k.vlock then 1 else 0)
    && n.writing <= 1
    && (n.writing == 1 ==> n.readers + n.unlockW == 0)
    && (n.unlockW > 0 ==> k.value == 0)
    && k.wlock == (n.writing + n.readers + n.unlockW > 0)
  }

  lemma MovedTotals(c: Pc -> nat, d: Pc -> nat, p: Pc, q: Pc)
    requires Moved(c, d, p, q)
    ensures TotalsOf(d) == Shifted(TotalsOf(c), Weight(p), Weight(q))
  {
    MovedReaders(c, d, p, q);
    MovedCounting(c, d, p, q);
    MovedOne(c, d, p, q, ReadSpinW);
    MovedOne(c, d, p, q, Writing);
    MovedOne(c, d, p, q, LeaveUnlockW);
    MovedOne(c, d, p, q, Panic);
  }

  lemma HasBit(c: Pc -> nat, p: Pc, x: Pc)
    requires c(p) > 0
    ensures c(x) >= Bit(p, x)
  {
  }

  lemma EnoughReaders(c: Pc -> nat, p: Pc)
    requires c(p) > 0
    ensures Readers(c) >= IsReader(p)
  {
    HasBit(c, p, ReadHasW);
    HasBit(c, p, ReadUnlock);
    HasBit(c, p, Reading);
    HasBit(c, p, LeaveSpin);
    HasBit(c, p, LeaveCount);
    HasBit(c, p, Downgraded);
    ReaderBits(p);
  }

  lemma EnoughTotals(c: Pc -> nat, p: Pc)
    requires c(p) > 0
    ensures AtLeast(TotalsOf(c), Weight(p))
  {
    EnoughReaders(c, p);
    HasBit(c, p, ReadCount);
    HasBit(c, p, ReadSpinW);
    HasBit(c, p, ReadHasW);
    HasBit(c, p, ReadUnlock);
    HasBit(c, p, LeaveCount);
    HasBit(c, p, LeaveUnlockW);
    HasBit(c, p, LeaveUnlock);
    CountingBits(p);
    HasBit(c, p, Writing);
    HasBit(c, p, Panic);
  }

  lemma EnterLawful(p: Pc, k: Lock, other: bool, n: Totals)
    requires p.ReadSpin? || p.ReadCount? || p.ReadSpinW?
    requires Lawful(n, k) && AtLeast(n, Weight(p)) && Act(p, k, other).Some?
    ensures var e := Act(p, k, other).value; Lawful(Shifted(n, Weight(p), Weight(e.pc)), e.lock)
  {
  }

  lemma EnteredLawful(p: Pc, k: Lock, other: bool, n: Totals)
    requires p.ReadHasW? || p.ReadUnlock? || p.Reading? || p.LeaveSpin?
    requires Lawful(n, k) && AtLeast(n, Weight(p)) && Act(p, k, other).Some?
    ensures var e := Act(p, k, other).value; Lawful(Shifted(n, Weight(p), Weight(e.pc)), e.lock)
  {
  }

  lemma LeaveLawful(p: Pc, k: Lock, other: bool, n: Totals)
    requires p.LeaveCount? || p.LeaveUnlockW? || p.LeaveUnlock?
    requires Lawful(n, k) && AtLeast(n, Weight(p)) && Act(p, k, other).Some?
    ensures var e := Act(p, k, other).value; Lawful(Shifted(n, Weight(p), Weight(e.pc)), e.lock)
  {
  }

  lemma WriteLawful(p: Pc, k: Lock, other: bool, n: Totals)
    requires p.Idle? || p.WriteSpin? || p.Writing? || p.Downgraded?
    requires Lawful(n, k) && AtLeast(n, Weight(p)) && Act(p, k, other).Some?
    ensures var e := Act(p, k, other).value; Lawful(Shifted(n, Weight(p), Weight(e.pc)), e.lock)
  {
  }

  lemma StepLawful(p: Pc, k: Lock, other: bool, n: Totals)
    requires Lawful(n, k) && AtLeast(n, Weight(p)) && Act(p, k, other).Some?
    ensures var e := Act(p, k, other).value; Lawful(Shifted(n, Weight(p), Weight(e.pc)), e.lock)
  {
    if p.ReadSpin? || p.ReadCount? || p.ReadSpinW? { EnterLawful(p, k, other, n); }
    else if p.ReadHasW? || p.ReadUnlock? || p.Reading? || p.LeaveSpin? { EnteredLawful(p, k, other, n); }
    else if p.LeaveCount? || p.LeaveUnlockW? || p.LeaveUnlock? { LeaveLawful(p, k, other, n); }
    else { WriteLawful(p, k, other, n); }
  }

  lemma ActLegal(p: Pc, k: Lock, other: bool, c: Pc -> nat, d: Pc -> nat)
    requires Legal(c, k) && Act(p, k, other).Some? && Moved(c, d, p, Act(p, k, other).value.pc)
    ensures Legal(d, Act(p, k, other).value.lock)
  {
    MovedTotals(c, d, p, Act(p, k, other).value.pc);
    EnoughTotals(c, p);
    StepLawful(p, k, other, TotalsOf(c));
  }

  lemma ActCrit(p: Pc, k: Lock, other: bool)
    requires Act(p, k, other).Some?
    ensures var e := Act(p, k, other).value; Crit(e.pc) == Crit(p) + e.crit
  {
  }

  lemma StepCrit(s: State, turn: Turn)
    requires AllCrit(s) && Enabled(s, turn)
    ensures AllCrit(Take(s, turn))
  {
    var n, t := Take(s, turn), turn.thread;
    ActCrit(s.pc[t], s.lock, turn.other);
    forall u | 0 <= u < |s.pc| ensures CritAt(n, u) {
      assert CritAt(s, u);
    }
  }

  lemma StepInv(s: State, turn: Turn)
    requires Inv(s)
    ensures Inv(Take(s, turn))
  {
    if Enabled(s, turn) {
      var n, t := Take(s, turn), turn.thread;
      Recount(s.pc, t, n.pc[t]);
      ActLegal(s.pc[t], s.lock, turn.other, Census(s.pc), Census(n.pc));
      StepCrit(s, turn);
    }
  }

  lemma LegalStart(c: Pc -> nat)
    requires forall p :: p != Idle ==> c(p) == 0
    ensures Legal(c, Lock(0, false, false))
  {
  }

  lemma StartCensus(n: nat, p: Pc)
    requires p != Idle
    ensures Census(Start(n).pc)(p) == 0
  {
    TallyStart(n, p);
  }

  lemma StartCrit(n: nat)
    ensures AllCrit(Start(n))
  {
    forall t | 0 <= t < n ensures CritAt(Start(n), t) { }
  }

  lemma StartInv(n: nat)
    ensures Inv(Start(n))
  {
    forall p | p != Idle ensures Census(Start(n).pc)(p) == 0 { StartCensus(n, p); }
    LegalStart(Census(Start(n).pc));
    StartCrit(n);
  }

  lemma {:induction false} RunInv(s: State, turns: seq<Turn>)
    requires Inv(s)
    ensures Inv(Run(s, turns)) && |Run(s, turns).pc| == |s.pc|
    decreases |turns|
  {
    if turns != [] {
      RunInv(s, turns[..|turns| - 1]);
      StepInv(Run(s, turns[..|turns| - 1]), turns[|turns| - 1]);
    }
  }

  lemma TwoThreads(pc: seq<Pc>, t: nat, u: nat)
    requires t < |pc| && u < |pc| && t != u && pc[t] == pc[u]
    ensures Tally(pc, pc[t]) >= 2
  {
    TallyMove(pc, t, if pc[t] == Idle then Panic else Idle, pc[u]);
    TallyHas(pc[t := if pc[t] == Idle then Panic else Idle], u);
  }

  /** A writer is alone, the count is that of the readers inside plus at most one waiting first reader, no release
      panics, and every thread's critical-section counter is that of its position: zero when idle or reading, one
      when writing. */
  ghost predicate Safe(s: State, t: nat, u: nat) {
    var c := Census(s.pc);
    && t < |s.pc| == |s.crit| && u < |s.pc|
    && (s.pc[t] == Writing ==> s.pc[u] != Writing && IsReader(s.pc[u]) == 0)
    && s.lock.value == Readers(c) + c(ReadSpinW) && c(ReadSpinW) <= 1
    && s.pc[t] != Panic
    && s.crit[t] == Crit(s.pc[t])
  }

  lemma InvSafe(s: State, t: nat, u: nat)
    requires Inv(s) && t < |s.pc| && u < |s.pc| && t != u
    ensures Safe(s, t, u)
  {
    var c := Census(s.pc);
    assert CritAt(s, t);
    TallyHas(s.pc, t);
    TallyHas(s.pc, u);
    assert c(s.pc[t]) > 0 && c(s.pc[u]) > 0;
    if s.pc[t] == s.pc[u] { TwoThreads(s.pc, t, u); }
  }

  /** So in every state of every run. */
  lemma Safety(n: nat, turns: seq<Turn>, t: nat, u: nat)
    requires t < n && u < n && t != u
    ensures Safe(Run(Start(n), turns), t, u)
  {
    var s := Start(n);
    StartInv(n);
    RunInv(s, turns);
    InvSafe(Run(s, turns), t, u);
  }

  // ---------- progress, and how downgrade can take it away ----------

  /** The first reader waits for `wlock` while readers are inside. */
  ghost predicate Jam(c: Pc -> nat) { c(ReadSpinW) > 0 && Readers(c) > 0 }

  ghost predicate Jammed(s: State) { Jam(Census(s.pc)) }

  lemma ActJams(p: Pc, k: Lock, other: bool, c: Pc -> nat, d: Pc -> nat)
    requires Legal(c, k) && Act(p, k, other).Some? && Moved(c, d, p, Act(p, k, other).value.pc) && !Jam(c)
    requires Legal(d, Act(p, k, other).value.lock)
    ensures Jam(d) <==> p == Writing && other && k.value != 0
  {
    MovedReaders(c, d, p, Act(p, k, other).value.pc);
  }

  /** The one call that jams the lock is a downgrade made while the count is not zero. */
  lemma DowngradeJams(s: State, turn: Turn)
    requires Inv(s) && !Jammed(s) && Enabled(s, turn)
    ensures Jammed(Take(s, turn)) <==> s.pc[turn.thread] == Writing && turn.other && s.lock.value != 0
  {
    var n, t := Take(s, turn), turn.thread;
    Recount(s.pc, t, n.pc[t]);
    StepInv(s, turn);
    ActJams(s.pc[t], s.lock, turn.other, Census(s.pc), Census(n.pc));
  }

  /** In a jammed lock the waiting reader never gets in and no reader ever gets out. */
  lemma JamStep(s: State, turn: Turn, t: nat)
    requires Inv(s) && Jammed(s) && t < |s.pc|
    ensures var n := Take(s, turn);
      && |n.pc| == |s.pc|
      && (s.pc[t] == ReadSpinW ==> n.pc[t] == ReadSpinW)
      && (IsReader(s.pc[t]) == 1 ==> IsReader(n.pc[t]) == 1)
  {
    TallyHas(s.pc, t);
    var c := Census(s.pc);
    assert c(ReadSpinW) == Tally(s.pc, ReadSpinW) && c(s.pc[t]) == Tally(s.pc, s.pc[t]);
    assert s.lock.wlock && s.lock.vlock;
  }

  lemma JamKept(s: State, turn: Turn)
    requires Inv(s) && Jammed(s)
    ensures Jammed(Take(s, turn))
  {
    if Enabled(s, turn) {
      var n, t := Take(s, turn), turn.thread;
      JamStep(s, turn, t);
      Recount(s.pc, t, n.pc[t]);
      var c, d := Census(s.pc), Census(n.pc);
      MovedReaders(c, d, s.pc[t], n.pc[t]);
      assert c(ReadSpinW) == Tally(s.pc, ReadSpinW) && d(ReadSpinW) == Tally(n.pc, ReadSpinW);
    }
  }

  lemma {:induction false} JamForever(s: State, turns: seq<Turn>, t: nat)
    requires Inv(s) && Jammed(s) && t < |s.pc|
    ensures var n := Run(s, turns);
      && Inv(n) && Jammed(n) && |n.pc| == |s.pc|
      && (s.pc[t] == ReadSpinW ==> n.pc[t] == ReadSpinW)
      && (IsReader(s.pc[t]) == 1 ==> IsReader(n.pc[t]) == 1)
    decreases |turns|
  {
    if turns != [] {
      var init, last := turns[..|turns| - 1], turns[|turns| - 1];
      JamForever(s, init, t);
      var m := Run(s, init);
      StepInv(m, last);
      JamKept(m, last);
      JamStep(m, last, t);
    }
  }

  /** Two threads are enough: the second starts to read under the writer, the writer downgrades and wants
      to leave, and neither can ever move again. */
  lemma DowngradeDeadlock() returns (turns: seq<Turn>)
    ensures var s := Run(Start(2), turns);
      s.pc == [LeaveSpin, ReadSpinW] && forall turn :: !Enabled(s, turn)
  {
    var before := ReaderUnderWriter();
    var w := Turn(0, true);
    WriterStuck();
    RunOne(Start(2), before, w);
    RunOne(Start(2), before + [w], w);
    RunOne(Start(2), before + [w] + [w], w);
    turns := before + [w] + [w] + [w];
  }

  lemma WriterStuck()
    ensures var w, s := Turn(0, true), State([Writing, ReadSpinW], [1, 2], Lock(1, true, true));
      var r := Take(Take(Take(s, w), w), w);
      r.pc == [LeaveSpin, ReadSpinW] && forall turn :: !Enabled(r, turn)
  {
    var w := Turn(0, true);
    var s1 := State([Writing, ReadSpinW], [1, 2], Lock(1, true, true));
    var s2 := State([Downgraded, ReadSpinW], [1, 2], Lock(2, true, true));
    var s3 := State([Reading, ReadSpinW], [0, 2], Lock(2, true, true));
    var s4 := State([LeaveSpin, ReadSpinW], [1, 2], Lock(2, true, true));
    assert Take(s1, w) == s2;
    assert Take(s2, w) == s3;
    assert Take(s3, w) == s4;
  }

  lemma ReaderUnderWriter() returns (turns: seq<Turn>)
    ensures Run(Start(2), turns) == State([Writing, ReadSpinW], [1, 2], Lock(1, true, true))
  {
    var before := OneWriter();
    var r := Turn(1, false);
    var s2 := State([Writing, Idle], [1, 0], Lock(0, false, true));
    var s3 := State([Writing, ReadSpin], [1, 1], Lock(0, false, true));
    var s4 := State([Writing, ReadCount], [1, 1], Lock(0, true, true));
    assert Take(s2, r) == s3 && Take(s3, r) == s4;
    RunOne(Start(2), before, r);
    RunOne(Start(2), before + [r], r);
    RunOne(Start(2), before + [r] + [r], r);
    turns := before + [r] + [r] + [r];
  }

  lemma OneWriter() returns (turns: seq<Turn>)
    ensures Run(Start(2), turns) == State([Writing, Idle], [1, 0], Lock(0, false, true))
  {
    StartTwo();
    turns := WriterEnters(Start(2), []);
  }

  lemma WriterEnters(s: State, before: seq<Turn>) returns (turns: seq<Turn>)
    requires Run(s, before) == State([Idle, Idle], [0, 0], Lock(0, false, false))
    ensures Run(s, turns) == State([Writing, Idle], [1, 0], Lock(0, false, true))
  {
    var w := Turn(0, true);
    RunOne(s, before, w);
    var s1 := State([WriteSpin, Idle], [1, 0], Lock(0, false, false));
    assert Take(Run(s, before), w) == s1;
    RunOne(s, before + [w], w);
    turns := before + [w] + [w];
  }

  lemma StartTwo()
    ensures Start(2) == State([Idle, Idle], [0, 0], Lock(0, false, false))
  {
    assert seq(2, _ => Idle) == [Idle, Idle];
    assert seq(2, _ => 0) == [0, 0];
  }

  lemma RunOne(s: State, turns: seq<Turn>, turn: Turn)
    ensures Run(s, turns + [turn]) == Take(Run(s, turns), turn)
  {
    assert (turns + [turn])[..|turns|] == turns;
  }

  lemma CensusIs(s: State, p: Pc)
    ensures Census(s.pc)(p) == Tally(s.pc, p)
  {
  }

  /** While a thread counts, that thread or a writer can go on. */
  lemma ProgressCounting(s: State) returns (t: nat)
    requires Inv(s) && !Jammed(s) && s.lock.vlock
    ensures Enabled(s, Turn(t, false)) && s.pc[t] != Idle
  {
    var p := CountingOne(Census(s.pc));
    CensusIs(s, p);
    t := TallyFind(s.pc, p);
    if p == ReadSpinW && s.lock.wlock {
      CensusIs(s, Writing);
      t := TallyFind(s.pc, Writing);
    }
  }

  /** While no thread counts, a thread inside can go on. */
  lemma ProgressInside(s: State) returns (t: nat)
    requires Inv(s) && !s.lock.vlock && s.lock.wlock
    ensures Enabled(s, Turn(t, false)) && s.pc[t] != Idle
  {
    var c := Census(s.pc);
    var p := if c(Writing) > 0 then Writing else if c(Reading) > 0 then Reading
             else if c(LeaveSpin) > 0 then LeaveSpin else Downgraded;
    CensusIs(s, p);
    t := TallyFind(s.pc, p);
  }

  /** Unless the lock is jammed, some thread in the middle of an operation or inside can go on. */
  lemma Progress(s: State, x: nat) returns (t: nat)
    requires Inv(s) && !Jammed(s) && x < |s.pc| && s.pc[x] != Idle
    ensures Enabled(s, Turn(t, false)) && s.pc[t] != Idle
  {
    TallyHas(s.pc, x);
    CensusIs(s, s.pc[x]);
    if s.lock.vlock {
      t := ProgressCounting(s);
    } else if s.pc[x] == WriteSpin && s.lock.wlock {
      t := ProgressInside(s);
    } else {
      t := x;
    }
  }

  lemma CountingOne(c: Pc -> nat) returns (p: Pc)
    requires Counting(c) > 0
    ensures c(p) > 0 && IsCounting(p) == 1
  {
    p := if c(ReadCount) > 0 then ReadCount else if c(ReadSpinW) > 0 then ReadSpinW
         else if c(ReadHasW) > 0 then ReadHasW else if c(ReadUnlock) > 0 then ReadUnlock
         else if c(LeaveCount) > 0 then LeaveCount else if c(LeaveUnlockW) > 0 then LeaveUnlockW else LeaveUnlock;
  }

  /** Steps left to a thread at `p` before it is idle again. */
  function Left(p: Pc): nat {
    match p
    case Idle | Panic => 0
    case LeaveUnlock => 1
    case LeaveUnlockW => 2
    case LeaveCount => 3
    case LeaveSpin => 4
    case Reading => 5
    case ReadUnlock | Downgraded => 6
    case ReadHasW | Writing => 7
    case ReadSpinW | WriteSpin => 8
    case ReadCount => 9
    case ReadSpin => 10
  }

  function Work(pc: seq<Pc>): nat {
    if pc == [] then 0 else Left(pc[0]) + Work(pc[1..])
  }

  lemma {:induction false} WorkMove(pc: seq<Pc>, t: nat, q: Pc)
    requires t < |pc|
    ensures Work(pc[t := q]) == Work(pc) - Left(pc[t]) + Left(q)
  {
    if t == 0 {
      assert pc[t := q][1..] == pc[1..];
    } else {
      assert pc[t := q][1..] == pc[1..][t - 1 := q];
      WorkMove(pc[1..], t - 1, q);
    }
  }

  lemma StepWork(s: State, turn: Turn)
    requires Enabled(s, turn) && s.pc[turn.thread] != Idle
    ensures Work(Take(s, turn).pc) < Work(s.pc)
  {
    WorkMove(s.pc, turn.thread, Take(s, turn).pc[turn.thread]);
  }

  /** A run in which nobody begins a new operation, nobody merely spins, and no downgrade jams the lock. */
  ghost predicate Draining(s: State, turns: seq<Turn>)
    decreases |turns|
  {
    turns == [] ||
    var init, last := turns[..|turns| - 1], turns[|turns| - 1];
    var m := Run(s, init);
    && Draining(s, init)
    && Enabled(m, last) && m.pc[last.thread] != Idle
    && (m.pc[last.thread] == Writing && last.other ==> m.lock.value == 0)
  }

  lemma {:induction false} DrainingWork(s: State, turns: seq<Turn>)
    requires Inv(s) && !Jammed(s) && Draining(s, turns)
    ensures var n := Run(s, turns); Inv(n) && !Jammed(n) && |turns| + Work(n.pc) <= Work(s.pc)
    decreases |turns|
  {
    if turns != [] {
      var init, last := turns[..|turns| - 1], turns[|turns| - 1];
      DrainingWork(s, init);
      var m := Run(s, init);
      StepInv(m, last);
      DowngradeJams(m, last);
      StepWork(m, last);
    }
  }

  lemma DrainMore(s: State, turns: seq<Turn>, turn: Turn)
    requires Draining(s, turns)
    requires var m := Run(s, turns); Enabled(m, turn) && m.pc[turn.thread] != Idle && !turn.other
    ensures Draining(s, turns + [turn])
  {
    assert (turns + [turn])[..|turns|] == turns;
  }

  predicate AllIdle(s: State) { forall t :: 0 <= t < |s.pc| ==> s.pc[t] == Idle }

  /** When nobody begins a new operation and holders go on to release, every lock that is not jammed comes
      to rest: such a run has at most `Work` steps, and can be continued until all threads are idle. */
  lemma Drains(s: State, turns: seq<Turn>) returns (turn: Turn)
    requires Inv(s) && !Jammed(s) && Draining(s, turns)
    ensures |turns| <= Work(s.pc)
    ensures AllIdle(Run(s, turns)) || Draining(s, turns + [turn])
  {
    DrainingWork(s, turns);
    turn := NextTurn(Run(s, turns));
    if !AllIdle(Run(s, turns)) { DrainMore(s, turns, turn); }
  }

  lemma NextTurn(n: State) returns (turn: Turn)
    requires Inv(n) && !Jammed(n)
    ensures AllIdle(n) || (Enabled(n, turn) && n.pc[turn.thread] != Idle && !turn.other)
  {
    turn := Turn(0, false);
    if !AllIdle(n) {
      var x: nat :| x < |n.pc| && n.pc[x] != Idle;
      var t := Progress(n, x);
      turn := Turn(t, false);
    }
  }

  ghost predicate WithoutDowngrade(s: State, turns: seq<Turn>)
    decreases |turns|
  {
    turns == [] ||
    var init, last := turns[..|turns| - 1], turns[|turns| - 1];
    var m := Run(s, init);
    WithoutDowngrade(s, init) && (Enabled(m, last) && m.pc[last.thread] == Writing ==> !last.other)
  }

  /** Without downgrade the lock never jams. */
  lemma {:induction false} NeverJams(n: nat, turns: seq<Turn>)
    requires WithoutDowngrade(Start(n), turns)
    ensures Inv(Run(Start(n), turns)) && !Jammed(Run(Start(n), turns))
    decreases |turns|
  {
    StartInv(n);
    RunInv(Start(n), turns);
    if turns == [] {
      TallyStart(n, ReadSpinW);
    } else {
      var init, last := turns[..|turns| - 1], turns[|turns| - 1];
      NeverJams(n, init);
      var m := Run(Start(n), init);
      if Enabled(m, last) { DowngradeJams(m, last); }
    }
  }
}
