/** Delivery of a caught signal and the return from its handler, src/kernel_signals.c:554-687. */
module SignalFrames {
  /** sizeof(struct signal_stack_state), a multiple of 16, and the offsets of its fields. */
  const SIZE: nat := 672
  const SIG: nat := 4
  const INFO: nat := 8
  const CTX: nat := 12
  const MASK: nat := 16
  const UCONTEXT: nat := 32
  const UC_MASK: nat := 36
  const GREGS: nat := 64
  const FREGS: nat := 128
  const SIGINFO: nat := 640

  const STACK_TOP: nat := 0xD000_0000
  const STACK_BOTTOM: nat := 0xC000_0000

  const SIGKILL: nat := 9
  const SIGCONT: nat := 18
  const SIGSTOP: nat := 19
  /** The signals that SAFE_SA_MASK keeps out of every mask. */
  const NEVER_MASKED: set<nat> := {SIGKILL, SIGSTOP, SIGCONT}

  /** SAFE_EFL_MASK: carry, parity, adjust, zero and sign. */
  const STATUS_FLAGS: bv32 := 0xD5

  /** What user memory holds at an address: a number, a signal set, flags or saved floating point state. */
  datatype Cell = Num(n: int) | Sigs(s: set<nat>) | Flags(f: bv32) | Fpu(x: int)

  type Memory = int -> Cell

  function Set(m: Memory, a: int, c: Cell): Memory { x => if x == a then c else m(x) }

  /** The registers at an interrupt from user mode: eight general ones, and the interrupt frame. */
  datatype Registers = Registers(general: seq<int>, ip: int, cs: int, flags: bv32, sp: nat, ss: int)

  /** What a delivery saves. */
  datatype Saved = Saved(at: nat, regs: Registers, fpu: int, mask: set<nat>, link: int)

  /** The frame of `s` is in memory, as far as the return reads it. */
  ghost predicate Holds(m: Memory, s: Saved) {
    && |s.regs.general| == 8
    && m(s.at + CTX) == Num(s.at + UCONTEXT)
    && m(s.at + MASK) == Sigs(s.mask)
    && m(s.at + UCONTEXT) == Num(s.link)
    && (forall i :: 0 <= i < 8 ==> m(s.at + GREGS + 4 * i) == Num(s.regs.general[i]))
    && m(s.at + GREGS + 32) == Num(s.regs.ip)
    && m(s.at + GREGS + 40) == Flags(s.regs.flags)
    && m(s.at + GREGS + 44) == Num(s.regs.sp)
    && m(s.at + FREGS) == Fpu(s.fpu)
  }

  /** Nothing from `low` on has changed. */
  ghost predicate SameFrom(m: Memory, m': Memory, low: int) { forall a :: a >= low ==> m'(a) == m(a) }

  lemma HoldsSame(m: Memory, m': Memory, s: Saved)
    requires Holds(m, s) && SameFrom(m, m', s.at)
    ensures Holds(m', s)
  {
  }

  /** Frames from the outermost to the innermost: each lies below the one before it and below the stack pointer it
      saved, and is linked to the one before it. */
  ghost predicate NestedAt(stack: seq<Saved>, base: int, k: nat)
    requires k < |stack|
  {
    && stack[k].at % 16 == 0
    && stack[k].at + SIZE <= stack[k].regs.sp
    && stack[k].mask !! NEVER_MASKED
    && stack[k].link == Link(stack, base, k)
    && (k > 0 ==> stack[k].regs.sp < stack[k - 1].at + 16 && stack[k].at + SIZE <= stack[k - 1].at)
  }

  /** The context that level `k` continues: that of the frame before it, or the thread's own. */
  ghost function Link(stack: seq<Saved>, base: int, k: nat): int
    requires k <= |stack|
  {
    if k == 0 then base else stack[k - 1].at + UCONTEXT
  }

  ghost predicate Level(m: Memory, stack: seq<Saved>, base: int, k: nat)
    requires k < |stack|
  {
    NestedAt(stack, base, k) && Holds(m, stack[k])
  }

  ghost predicate Nested(m: Memory, stack: seq<Saved>, base: int) {
    forall k :: 0 <= k < |stack| ==> Level(m, stack, base, k)
  }

  lemma NestedPop(m: Memory, stack: seq<Saved>, base: int)
    requires Nested(m, stack, base) && stack != []
    ensures Nested(m, stack[..|stack| - 1], base)
  {
    var s := stack[..|stack| - 1];
    forall k | 0 <= k < |s| ensures Level(m, s, base, k) {
      assert Level(m, stack, base, k);
    }
  }

  lemma {:induction false} Lowest(m: Memory, stack: seq<Saved>, base: int, k: nat)
    requires Nested(m, stack, base) && k < |stack|
    ensures stack[|stack| - 1].at <= stack[k].at
    decreases |stack| - k
  {
    if k + 1 < |stack| {
      assert Level(m, stack, base, k + 1);
      Lowest(m, stack, base, k + 1);
    }
  }

  /** Changes below the innermost frame leave all frames as they are. */
  lemma NestedSame(m: Memory, m': Memory, stack: seq<Saved>, base: int)
    requires Nested(m, stack, base) && (stack != [] ==> SameFrom(m, m', stack[|stack| - 1].at))
    ensures Nested(m', stack, base)
  {
    forall k | 0 <= k < |stack| ensures Level(m', stack, base, k) {
      Lowest(m, stack, base, k);
      assert Level(m, stack, base, k);
      HoldsSame(m, m', stack[k]);
    }
  }

  lemma NestedPush(m: Memory, stack: seq<Saved>, base: int, s: Saved)
    requires Nested(m, stack, base) && Holds(m, s) && NestedAt(stack + [s], base, |stack|)
    ensures Nested(m, stack + [s], base)
  {
    var t := stack + [s];
    forall k | 0 <= k < |t| ensures Level(m, t, base, k) {
      if k < |stack| { assert Level(m, stack, base, k); }
    }
  }

  /** Line 591-594: the frame goes below the stack pointer, on a multiple of 16. */
  function FrameAt(sp: nat): (at: int) { (sp - SIZE) - (sp - SIZE) % 16 }

  lemma FrameBelow(sp: nat, top: nat)
    requires top % 16 == 0 && sp < top + 16
    ensures FrameAt(sp) + SIZE <= top && FrameAt(sp) + SIZE <= sp < FrameAt(sp) + SIZE + 16 && FrameAt(sp) % 16 == 0
  {
  }

  /** A stack pointer lies on the stacks of the process, and what is there is writable as far as it has to be. */
  predicate Usable(sp: int, writable: int -> bool) { 0xC000_0000 <= sp < 0xD000_0000 && writable(sp) }

  /** struct sigaction. */
  datatype Action = Action(handler: int, restorer: int, mask: set<nat>, noDefer: bool, reset: bool)

  /** Lines 605-620: the frame as it is written, field after field. */
  function Written(m: Memory, s: Saved, action: Action, sig: nat, mask: set<nat>, info: int): Memory
    requires |s.regs.general| == 8
  {
    var r := s.regs;
    var m1 := Set(Set(m, s.at, Num(action.restorer)), s.at + MASK, Sigs(s.mask));
    var m2 := Set(Set(m1, s.at + UCONTEXT, Num(s.link)), s.at + UC_MASK, Sigs(mask));
    var m3 := General(m2, s.at + GREGS, r.general, 8);
    var m4 := Set(Set(m3, s.at + GREGS + 32, Num(r.ip)), s.at + GREGS + 36, Num(r.cs));
    var m5 := Set(
      Set(Set(m4, s.at + GREGS + 40, Flags(r.flags)), s.at + GREGS + 44, Num(r.sp)), s.at + GREGS + 48, Num(r.ss));
    var m6 := Set(Set(m5, s.at + FREGS, Fpu(s.fpu)), s.at + SIGINFO, Num(info));
    Set(Set(Set(m6, s.at + CTX, Num(s.at + UCONTEXT)), s.at + INFO, Num(s.at + SIGINFO)), s.at + SIG, Num(sig))
  }

  /** The first `n` general registers at `a`. */
  function General(m: Memory, a: int, general: seq<int>, n: nat): Memory
    requires n <= |general|
  {
    if n == 0 then m else Set(General(m, a, general, n - 1), a + 4 * (n - 1), Num(general[n - 1]))
  }

  lemma {:induction false} GeneralAt(m: Memory, a: int, general: seq<int>, n: nat, x: int)
    requires n <= |general|
    ensures General(m, a, general, n)(x)
         == if a <= x < a + 4 * n && (x - a) % 4 == 0 then Num(general[(x - a) / 4]) else m(x)
  {
    if n > 0 { GeneralAt(m, a, general, n - 1, x); }
  }

  lemma WrittenHolds(m: Memory, s: Saved, action: Action, sig: nat, mask: set<nat>, info: int)
    requires |s.regs.general| == 8
    ensures Holds(Written(m, s, action, sig, mask, info), s)
    ensures SameFrom(m, Written(m, s, action, sig, mask, info), s.at + SIZE)
  {
    var w := Written(m, s, action, sig, mask, info);
    var m1 := Set(Set(m, s.at, Num(action.restorer)), s.at + MASK, Sigs(s.mask));
    var m2 := Set(Set(m1, s.at + UCONTEXT, Num(s.link)), s.at + UC_MASK, Sigs(mask));
    GeneralAt(m2, s.at + GREGS, s.regs.general, 8, s.at + MASK);
    GeneralAt(m2, s.at + GREGS, s.regs.general, 8, s.at + UCONTEXT);
    forall x: int | x >= s.at + SIZE ensures w(x) == m(x) {
      WrittenAbove(m, s, action, sig, mask, info, x);
    }
    forall i | 0 <= i < 8 ensures w(s.at + GREGS + 4 * i) == Num(s.regs.general[i]) {
      WrittenGeneral(m, s, action, sig, mask, info, i);
    }
  }

  /** What a handler called with `sp` finds, by the calling convention: the return address, which is the restorer,
      and the signal number, the siginfo and the context as arguments. */
  ghost predicate Arguments(m: Memory, sp: int, restorer: int, sig: nat, info: int) {
    && m(sp) == Num(restorer) && m(sp + SIG) == Num(sig)
    && m(sp + INFO) == Num(sp + SIGINFO) && m(sp + SIGINFO) == Num(info)
    && m(sp + CTX) == Num(sp + UCONTEXT)
  }

  lemma WrittenArguments(m: Memory, s: Saved, action: Action, sig: nat, mask: set<nat>, info: int)
    requires |s.regs.general| == 8
    ensures Arguments(Written(m, s, action, sig, mask, info), s.at, action.restorer, sig, info)
  {
    var m1 := Set(Set(m, s.at, Num(action.restorer)), s.at + MASK, Sigs(s.mask));
    var m2 := Set(Set(m1, s.at + UCONTEXT, Num(s.link)), s.at + UC_MASK, Sigs(mask));
    GeneralAt(m2, s.at + GREGS, s.regs.general, 8, s.at);
  }

  lemma WrittenAbove(m: Memory, s: Saved, action: Action, sig: nat, mask: set<nat>, info: int, x: int)
    requires |s.regs.general| == 8 && x >= s.at + SIZE
    ensures Written(m, s, action, sig, mask, info)(x) == m(x)
  {
    var m1 := Set(Set(m, s.at, Num(action.restorer)), s.at + MASK, Sigs(s.mask));
    var m2 := Set(Set(m1, s.at + UCONTEXT, Num(s.link)), s.at + UC_MASK, Sigs(mask));
    GeneralAt(m2, s.at + GREGS, s.regs.general, 8, x);
  }

  lemma WrittenGeneral(m: Memory, s: Saved, action: Action, sig: nat, mask: set<nat>, info: int, i: nat)
    requires |s.regs.general| == 8 && i < 8
    ensures Written(m, s, action, sig, mask, info)(s.at + GREGS + 4 * i) == Num(s.regs.general[i])
  {
    var m1 := Set(Set(m, s.at, Num(action.restorer)), s.at + MASK, Sigs(s.mask));
    var m2 := Set(Set(m1, s.at + UCONTEXT, Num(s.link)), s.at + UC_MASK, Sigs(mask));
    GeneralAt(m2, s.at + GREGS, s.regs.general, 8, s.at + GREGS + 4 * i);
  }

  // ---------- the code ----------

  /** Line 645-646: the five status flags of the source, the rest of the target. */
  function MixedFlags(target: bv32, source: bv32): bv32 { (target & !STATUS_FLAGS) | (source & STATUS_FLAGS) }

  predicate SameStatus(f: bv32, g: bv32) { f & STATUS_FLAGS == g & STATUS_FLAGS }

  predicate SameOthers(f: bv32, g: bv32) { f & !STATUS_FLAGS == g & !STATUS_FLAGS }

  lemma MixedFlagsKeep(target: bv32, source: bv32)
    ensures SameStatus(MixedFlags(target, source), source) && SameOthers(MixedFlags(target, source), target)
  {
  }

  /** A user thread with its memory and the actions of its process. */
  class Thread {
    var mem: Memory
    var regs: Registers
    var fpu: int
    var mask: set<nat>
    var lastContext: int
    var actions: map<nat, Action>
    /** sa_to_be_handled and its siginfo. */
    var pending: nat
    var info: int
    /** The thread has been terminated for a bad stack. */
    var dead: bool
    ghost var stack: seq<Saved>
    ghost const base: int

    ghost predicate Valid()
      reads this
    {
      && |regs.general| == 8
      && mask !! NEVER_MASKED
      && Nested(mem, stack, base)
      && (stack != [] ==> regs.sp < stack[|stack| - 1].at + 16)
      && lastContext == Link(stack, base, |stack|)
    }

    predicate OnStack()
      reads this
    {
      STACK_BOTTOM <= regs.sp < STACK_TOP
    }

    /** Lines 596-597 and 605-621: the frame is written field by field. */
    method WriteFrame(s: Saved, action: Action, sig: nat, newMask: set<nat>)
      requires |s.regs.general| == 8
      modifies this`mem
      ensures Holds(mem, s) && SameFrom(old(mem), mem, s.at + SIZE)
      ensures Arguments(mem, s.at, action.restorer, sig, info)
    {
      ghost var m := mem;
      mem := Set(Set(mem, s.at, Num(action.restorer)), s.at + MASK, Sigs(s.mask));
      mem := Set(Set(mem, s.at + UCONTEXT, Num(s.link)), s.at + UC_MASK, Sigs(newMask));
      mem := General(mem, s.at + GREGS, s.regs.general, 8);
      mem := Set(Set(mem, s.at + GREGS + 32, Num(s.regs.ip)), s.at + GREGS + 36, Num(s.regs.cs));
      mem := Set(mem, s.at + GREGS + 40, Flags(s.regs.flags));
      mem := Set(Set(mem, s.at + GREGS + 44, Num(s.regs.sp)), s.at + GREGS + 48, Num(s.regs.ss));
      mem := Set(Set(mem, s.at + FREGS, Fpu(s.fpu)), s.at + SIGINFO, Num(info));
      mem := Set(Set(mem, s.at + CTX, Num(s.at + UCONTEXT)), s.at + INFO, Num(s.at + SIGINFO));
      mem := Set(mem, s.at + SIG, Num(sig));
      assert mem == Written(m, s, action, sig, newMask, info);
      WrittenHolds(m, s, action, sig, newMask, info);
      WrittenArguments(m, s, action, sig, newMask, info);
    }

    /** Lines 599-603. */
    method Block(action: Action, bits: set<nat>)
      modifies this`mask
      ensures mask == old(mask) + (if action.noDefer then {} else bits) + action.mask - NEVER_MASKED
    {
      if !action.noDefer { mask := mask + bits; }
      mask := mask + action.mask;
      mask := mask - NEVER_MASKED;
    }

    /** Lines 591-631: push a frame and enter the handler. */
    method Enter(bits: set<nat>)
      requires Valid() && pending in actions && regs.sp >= STACK_BOTTOM
      modifies this
      ensures Valid() && pending == 0 && dead == old(dead)
      ensures stack == old(stack) + [Saved(FrameAt(old(regs).sp), old(regs), old(fpu), old(mask), old(lastContext))]
      ensures regs == old(regs).(sp := FrameAt(old(regs).sp), ip := old(actions[pending].handler))
      ensures mask == old(mask + (if actions[pending].noDefer then {} else bits) + actions[pending].mask) - NEVER_MASKED
      ensures SameFrom(old(mem), mem, old(regs).sp)
      ensures Arguments(mem, regs.sp, old(actions[pending].restorer), old(pending), old(info))
      ensures actions == if old(actions[pending].reset) then old(actions) - {old(pending)} else old(actions)
      ensures fpu == old(fpu) && info == old(info) && lastContext == regs.sp + UCONTEXT
    {
      var action, sig := actions[pending], pending;
      var s := Saved(FrameAt(regs.sp), regs, fpu, mask, lastContext);
      Block(action, bits);
      Push(s, action, sig);
      regs := regs.(sp := s.at, ip := action.handler);
      if action.reset { actions := actions - {pending}; }
      pending := 0;
    }

    /** Lines 605-621: the frame is written and linked in. */
    method Push(s: Saved, action: Action, sig: nat)
      requires Nested(mem, stack, base) && |s.regs.general| == 8 && s.at == FrameAt(s.regs.sp)
      requires s.mask !! NEVER_MASKED && s.link == Link(stack, base, |stack|)
      requires stack != [] ==> s.regs.sp < stack[|stack| - 1].at + 16
      modifies this`mem, this`stack, this`lastContext
      ensures Nested(mem, stack, base) && stack == old(stack) + [s] && lastContext == s.at + UCONTEXT
      ensures SameFrom(old(mem), mem, s.regs.sp) && Arguments(mem, s.at, action.restorer, sig, info)
    {
      ghost var m := mem;
      WriteFrame(s, action, sig, mask);
      NestedEnter(m, mem, stack, base, s);
      lastContext := s.at + UCONTEXT;
      stack := stack + [s];
    }

    /** signal_dispatch_sa from line 577 on, for a signal that is caught.  `bits` is GET_SIG_MASK of the signal and
        `writable` the answer of check_address_writable. */
    method Dispatch(bits: set<nat>, writable: bool)
      requires Valid() && pending in actions
      modifies this
      ensures Valid() && pending == 0
      ensures dead <==> old(dead) || old(regs).sp < STACK_BOTTOM || old(regs).sp >= STACK_TOP || !writable
      ensures fpu == old(fpu) && info == old(info)
      ensures !old(OnStack()) || !writable ==>
        stack == old(stack) && regs == old(regs) && mask == old(mask) && mem == old(mem) && actions == old(actions)
      ensures old(OnStack()) && writable ==>
        actions == if old(actions[pending].reset) then old(actions) - {old(pending)} else old(actions)
      ensures old(OnStack()) && writable ==>
        && stack == old(stack) + [Saved(FrameAt(old(regs).sp), old(regs), old(fpu), old(mask), old(lastContext))]
        && regs == old(regs).(sp := FrameAt(old(regs).sp), ip := old(actions[pending].handler))
        && mask == old(mask + (if actions[pending].noDefer then {} else bits) + actions[pending].mask) - NEVER_MASKED
        && SameFrom(old(mem), mem, old(regs).sp)
        && Arguments(mem, regs.sp, old(actions[pending].restorer), old(pending), old(info))
    {
      if !(regs.sp < STACK_TOP && regs.sp >= STACK_BOTTOM) || !writable {
        pending := 0;
        dead := true;
        return;
      }
      Enter(bits);
    }

    method LoadGeneral(at: int, ghost s: Saved) returns (general: seq<int>)
      requires Holds(mem, s) && at == s.at
      ensures general == s.regs.general
    {
      general := [];
      var i := 0;
      while i < 8
        invariant 0 <= i <= 8 && general == s.regs.general[..i]
      {
        assert mem(s.at + GREGS + 4 * i) == Num(s.regs.general[i]);
        general := general + [mem(at + GREGS + 4 * i).n];
        i := i + 1;
      }
    }

    /** sigreturn_restore_context, for the frame at `at`. */
    method RestoreContext(at: nat, ghost s: Saved)
      requires Holds(mem, s) && at == s.at && at % 16 == 0
      modifies this`regs, this`fpu
      ensures fpu == s.fpu
      ensures regs == Registers(s.regs.general, s.regs.ip, old(regs).cs, regs.flags, s.regs.sp, old(regs).ss)
      ensures SameStatus(regs.flags, s.regs.flags) && SameOthers(regs.flags, old(regs).flags)
    {
      var general := LoadGeneral(at, s);
      regs := regs.(general := general, ip := mem(at + GREGS + 32).n, sp := mem(at + GREGS + 44).n);
      RestoreFlags(mem(at + GREGS + 40).f);
      if (at + GREGS) % 16 == 0 { fpu := mem(at + FREGS).x; }
    }

    method RestoreFlags(flags: bv32)
      modifies this`regs
      ensures regs == old(regs).(flags := regs.flags)
      ensures SameStatus(regs.flags, flags) && SameOthers(regs.flags, old(regs).flags)
    {
      MixedFlagsKeep(regs.flags, flags);
      regs := regs.(flags := MixedFlags(regs.flags, flags));
    }

    /** sys_sigreturn, after the return instruction of the innermost handler has taken the restorer's address. */
    method Sigreturn(writable: bool)
      requires Valid() && stack != [] && regs.sp == stack[|stack| - 1].at + 4
      modifies this
      ensures Valid()
      ensures dead <==> old(dead) || !old(OnStack()) || !writable
      ensures !old(OnStack()) || !writable ==>
        stack == old(stack) && regs == old(regs) && mask == old(mask) && mem == old(mem)
      ensures old(OnStack()) && writable ==>
        Restored(old(stack[|stack| - 1]), old(regs)) && stack == old(stack[..|stack| - 1])
    {
      if !(regs.sp < STACK_TOP && regs.sp >= STACK_BOTTOM) || !writable {
        dead := true;
        return;
      }
      Leave();
    }

    /** Lines 681-684: the mask of the frame, and the context it is linked to. */
    method Unblock(at: nat, ghost s: Saved)
      requires Holds(mem, s) && at == s.at && s.mask !! NEVER_MASKED
      modifies this`mask, this`lastContext
      ensures mask == s.mask && lastContext == s.link
    {
      SafeMask(s.mask);
      mask := mem(at + MASK).s;
      mask := mask - NEVER_MASKED;
      lastContext := mem(mem(at + CTX).n).n;
    }

    /** Lines 679-686. */
    method Leave()
      requires Valid() && stack != [] && regs.sp == stack[|stack| - 1].at + 4
      modifies this`mask, this`lastContext, this`regs, this`fpu, this`stack
      ensures Valid() && Restored(old(stack[|stack| - 1]), old(regs)) && stack == old(stack[..|stack| - 1])
    {
      ghost var s := stack[|stack| - 1];
      NestedTop(mem, stack, base);
      var at := regs.sp - 4;
      Unblock(at, s);
      RestoreContext(at, s);
      stack := stack[..|stack| - 1];
    }

    /** Some stores below `low`. */
    method UserStores(low: int)
      modifies this`mem
      ensures SameFrom(old(mem), mem, low)
    {
      var stores: seq<(int, Cell)> := *;
      var i := 0;
      while i < |stores|
        invariant SameFrom(old(mem), mem, low)
      {
        if stores[i].0 < low { mem := Set(mem, stores[i].0, stores[i].1); }
        i := i + 1;
      }
    }

    method UserRegisters(low: int)
      modifies this`regs, this`fpu
      ensures regs == old(regs) || (|regs.general| == 8 && regs.sp < low + 16)
    {
      var x: int := *;
      fpu := x;
      var r: Registers := *;
      if |r.general| == 8 && r.sp < low + 16 { regs := r; }
    }

    /** Code of a handler whose frame is at `low`: it leaves memory from there on alone and does not unwind the
        frame, and otherwise does as it likes.  Its changes to the mask go through sigprocmask, which applies
        SAFE_SA_MASK. */
    method UserCode(low: int)
      requires Valid() && stack != [] && low == stack[|stack| - 1].at
      modifies this`mem, this`regs, this`fpu, this`mask
      ensures Valid()
    {
      ghost var m := mem;
      UserStores(low);
      NestedSame(m, mem, stack, base);
      UserRegisters(low);
      var blocked: set<nat> := *;
      mask := blocked - NEVER_MASKED;
    }

    /** A handler runs and is itself interrupted any number of times, up to any depth. */
    method Handler(at: int, depth: nat, writable: int -> bool)
      requires Valid() && !dead && stack != [] && at == stack[|stack| - 1].at
      modifies this
      ensures Valid() && (!dead ==> stack == old(stack)) && (depth == 0 ==> !dead)
      decreases depth, 1
    {
      var rounds: nat := *;
      while rounds > 0
        invariant Valid() && !dead && stack == old(stack)
      {
        UserCode(at);
        var next: nat := *;
        if depth > 0 && next in actions {
          Interrupt(next, depth - 1, writable);
          if dead { return; }
        }
        rounds := rounds - 1;
      }
    }

    /** The delivery of a signal. */
    method Deliver(sig: nat, writable: int -> bool)
      requires Valid() && !dead && sig in actions
      modifies this
      ensures Valid() && (dead <==> !Usable(old(regs).sp, writable))
      ensures !dead ==> regs.sp == FrameAt(old(regs).sp)
      ensures !dead ==>
        stack == old(stack) + [Saved(FrameAt(old(regs).sp), old(regs), old(fpu), old(mask), old(lastContext))]
    {
      pending := sig;
      var bits: set<nat> := *;
      Dispatch(bits, writable(regs.sp));
    }

    /** The handler returns to the restorer, which calls sigreturn. */
    method Return(at: int, writable: int -> bool)
      requires Valid() && !dead && stack != [] && at == stack[|stack| - 1].at
      modifies this
      ensures Valid() && (dead <==> !Usable(at + 4, writable))
      ensures !dead ==> Resumed(old(stack[|stack| - 1])) && stack == old(stack[..|stack| - 1])
    {
      regs := regs.(sp := at + 4);
      Sigreturn(writable(regs.sp));
    }

    /** A signal is delivered, its handler runs, and the handler returns.  The thread is terminated if its stack
        cannot be used at the delivery or at the return, or on an interruption of its handler; otherwise it goes on as
        if nothing had happened. */
    method Interrupt(sig: nat, depth: nat, writable: int -> bool)
      requires Valid() && !dead && sig in actions
      modifies this
      ensures Valid()
      ensures !Usable(old(regs).sp, writable) || !Usable(FrameAt(old(regs).sp) + 4, writable) ==> dead
      ensures dead && depth == 0 ==> !Usable(old(regs).sp, writable) || !Usable(FrameAt(old(regs).sp) + 4, writable)
      ensures !dead ==>
        && stack == old(stack)
        && regs.general == old(regs).general && regs.ip == old(regs).ip && regs.sp == old(regs).sp
        && SameStatus(regs.flags, old(regs).flags)
        && mask == old(mask) && fpu == old(fpu) && lastContext == old(lastContext)
      decreases depth, 2
    {
      Deliver(sig, writable);
      if dead { return; }
      ghost var pushed := stack;
      var at := regs.sp;
      Handler(at, depth, writable);
      if dead { return; }
      Return(at, writable);
      assert pushed[..|old(stack)|] == old(stack);
    }

    /** What the delivery that saved `s` interrupted goes on. */
    ghost predicate Resumed(s: Saved)
      reads this
    {
      && regs.general == s.regs.general && regs.ip == s.regs.ip && regs.sp == s.regs.sp
      && SameStatus(regs.flags, s.regs.flags)
      && mask == s.mask && fpu == s.fpu && lastContext == s.link
    }

    /** Everything the thread had before the delivery that saved `s` is back; segments and the other flags are those
        it had at the return. */
    ghost predicate Restored(s: Saved, before: Registers)
      reads this
    {
      Resumed(s) && SameOthers(regs.flags, before.flags) && regs.cs == before.cs && regs.ss == before.ss
    }
  }

  lemma SafeMask(mask: set<nat>)
    requires mask !! NEVER_MASKED
    ensures mask - NEVER_MASKED == mask
  {
  }

  /** What is known of the innermost frame, and of the others without it. */
  lemma NestedTop(m: Memory, stack: seq<Saved>, base: int)
    requires Nested(m, stack, base) && stack != []
    ensures var n := |stack| - 1; var s := stack[n];
      && Holds(m, s) && s.at % 16 == 0 && s.mask !! NEVER_MASKED
      && Nested(m, stack[..n], base)
      && s.link == Link(stack[..n], base, n)
      && (n > 0 ==> s.regs.sp < stack[..n][n - 1].at + 16)
  {
    NestedPop(m, stack, base);
    assert Level(m, stack, base, |stack| - 1);
  }

  lemma NestedEnter(m: Memory, m': Memory, stack: seq<Saved>, base: int, s: Saved)
    requires Nested(m, stack, base) && Holds(m', s) && SameFrom(m, m', s.at + SIZE)
    requires s.at == FrameAt(s.regs.sp) && s.mask !! NEVER_MASKED && s.link == Link(stack, base, |stack|)
    requires stack != [] ==> s.regs.sp < stack[|stack| - 1].at + 16
    ensures Nested(m', stack + [s], base) && s.at + SIZE <= s.regs.sp
  {
    if stack == [] {
      FrameBelow(s.regs.sp, s.regs.sp + 16 - s.regs.sp % 16);
    } else {
      assert Level(m, stack, base, |stack| - 1);
      FrameBelow(s.regs.sp, stack[|stack| - 1].at);
    }
    NestedSame(m, m', stack, base);
    NestedPush(m', stack, base, s);
  }
}
