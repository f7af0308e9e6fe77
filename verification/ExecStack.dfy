/** The initial stack image of a program, src/kernel_exec_argv.c, against section 2.3.1 (Initial Stack and Register
    State) of the System V i386 psABI. */
module ExecStack {
  import Division
  import opened Errno
  import opened Numbers

  /** The bytes of a string before its null byte. */
  type Str = seq<Byte>

  const ARG_MAX: int := 0x4000
  const STACK_TOP: int := 0xD000_0000
  const AT_NULL: int := 0
  const AT_EXECFD: int := 2
  /** sizeof(auxv_t). */
  const AUXV: int := 8

  predicate Proper(s: Str) { 0 !in s }

  predicate AllProper(ss: seq<Str>) { forall i :: 0 <= i < |ss| ==> Proper(ss[i]) }

  /** A vector as the caller passes it: a null pointer, or pointers to strings up to a null pointer. */
  datatype Vector = Null | List(strings: seq<Str>)

  datatype Result = Err(error: int) | Ok(image: seq<Byte>)

  /** Bytes of the first `k` strings with their null bytes. */
  function Sum(ss: seq<Str>, k: nat): nat
    requires k <= |ss|
  {
    if k == 0 then 0 else Sum(ss, k - 1) + |ss[k - 1]| + 1
  }

  /** What a vector adds to the size: pointers, the null pointer, and the strings. */
  function Space(ss: seq<Str>): nat { 4 * (|ss| + 1) + Sum(ss, |ss|) }

  function Strings(vec: Vector): seq<Str> { if vec.Null? then [] else vec.strings }

  /** A null pointer adds nothing. */
  function Added(vec: Vector): nat { if vec.Null? then 0 else Space(vec.strings) }

  lemma {:induction false} SumGrows(ss: seq<Str>, j: nat, k: nat)
    requires j <= k <= |ss|
    ensures Sum(ss, j) <= Sum(ss, k)
  {
    if j < k { SumGrows(ss, j, k - 1); }
  }

  // ---------- sizes ----------

  /** check_address, which can fail unless all addresses are known to be mapped. */
  method CheckAddress(mapped: bool) returns (ok: bool)
    ensures mapped ==> ok
  {
    ok := *;
    if mapped { ok := true; }
  }

  /** vector_check.  With its addresses mapped, a vector is accepted exactly when it fits, and refused with -EFAULT
      exactly when its pointers alone do not. */
  method VectorCheck(vector: Vector, before: int, mapped: bool) returns (r: int, count: nat)
    requires 0 <= before <= ARG_MAX
    ensures r >= 0 ==> count == |Strings(vector)| && r == before + Added(vector) && r <= ARG_MAX
    ensures r < 0 ==> vector.List? && (r == -EFAULT || (r == -E2BIG && before + Added(vector) > ARG_MAX))
    ensures mapped ==> (r >= 0 <==> before + Added(vector) <= ARG_MAX)
    ensures mapped ==> (r == -EFAULT <==>
      vector.List? && vector.strings != [] && before + 4 * (|vector.strings| - 1) >= ARG_MAX)
  {
    if vector.Null? { return before, 0; }
    var vec := vector.strings;
    var size, argc := before, 0;
    count := 0;
    while size < ARG_MAX
      invariant argc <= |vec| && size == before + 4 * argc
      invariant size - 4 < ARG_MAX
      decreases ARG_MAX - size
    {
      var ok := CheckAddress(mapped);
      if !ok { return -EFAULT, 0; }
      if argc == |vec| { break; }
      ok := CheckAddress(mapped);
      if !ok { return -EFAULT, 0; }
      argc, size := argc + 1, size + 4;
    }
    size := size + 4;
    if argc != |vec| { return -EFAULT, 0; }
    if size > ARG_MAX { return -E2BIG, 0; }
    var i := 0;
    while i < argc
      invariant i <= argc && size == before + 4 * (argc + 1) + Sum(vec, i) <= ARG_MAX
    {
      SumGrows(vec, i + 1, |vec|);
      var j := 0;
      while j < |vec[i]|
        invariant j <= |vec[i]| && size == before + 4 * (argc + 1) + Sum(vec, i) + j
      {
        var ok := CheckAddress(mapped);
        if !ok { return -EFAULT, 0; }
        j, size := j + 1, size + 1;
      }
      size := size + 1;
      if size > ARG_MAX { return -E2BIG, 0; }
      i := i + 1;
    }
    return size, argc;
  }

  // ---------- the image ----------

  function Word(m: seq<Byte>, off: nat): int
    requires off + 4 <= |m|
  {
    var b0: int, b1: int, b2: int, b3: int := m[off], m[off + 1], m[off + 2], m[off + 3];
    b0 + 0x100 * b1 + 0x1_0000 * b2 + 0x100_0000 * b3
  }

  /** The null-terminated string at `off`. */
  ghost predicate StringAt(m: seq<Byte>, off: nat, s: Str) {
    off + |s| < |m| && m[off..off + |s|] == s && m[off + |s|] == 0
  }

  /** The same bytes from `lo` to before `hi`. */
  ghost predicate Same(m: seq<Byte>, m': seq<Byte>, lo: int, hi: int) {
    |m| == |m'| && forall k :: 0 <= k < |m| && lo <= k < hi ==> m'[k] == m[k]
  }

  lemma StringSame(m: seq<Byte>, m': seq<Byte>, lo: int, hi: int, off: nat, s: Str)
    requires Same(m, m', lo, hi) && StringAt(m, off, s) && lo <= off && off + |s| < hi
    ensures StringAt(m', off, s)
  {
  }

  lemma Digits(v: int)
    requires 0 <= v < 0x1_0000_0000
    ensures 0 <= v / 0x100_0000 < 0x100
    ensures v == v % 0x100 + 0x100 * (v / 0x100 % 0x100) + 0x1_0000 * (v / 0x1_0000 % 0x100)
                 + 0x100_0000 * (v / 0x100_0000)
  {
    var a := v / 0x100;
    var b := a / 0x100;
    Division.Floor(v, 0x1_0000, b);
    Division.Floor(v, 0x100_0000, b / 0x100);
  }

  method PutWord(m: array<Byte>, off: nat, v: int)
    requires off + 4 <= m.Length && 0 <= v < 0x1_0000_0000
    modifies m
    ensures Word(m[..], off) == v
    ensures m[off] == v % 0x100 && m[off + 1] == v / 0x100 % 0x100
    ensures m[off + 2] == v / 0x1_0000 % 0x100 && m[off + 3] == v / 0x100_0000
    ensures Same(old(m[..]), m[..], 0, off) && Same(old(m[..]), m[..], off + 4, m.Length)
  {
    Digits(v);
    m[off] := v % 0x100;
    m[off + 1] := v / 0x100 % 0x100;
    m[off + 2] := v / 0x1_0000 % 0x100;
    m[off + 3] := v / 0x100_0000;
  }

  /** strcpy. */
  method PutString(m: array<Byte>, off: nat, s: Str)
    requires off + |s| < m.Length
    modifies m
    ensures StringAt(m[..], off, s)
    ensures Same(old(m[..]), m[..], 0, off) && Same(old(m[..]), m[..], off + |s| + 1, m.Length)
  {
    var i := 0;
    while i < |s|
      invariant i <= |s| && forall k :: 0 <= k < i ==> m[off + k] == s[k]
      invariant Same(old(m[..]), m[..], 0, off) && Same(old(m[..]), m[..], off + i, m.Length)
    {
      m[off + i] := s[i];
      i := i + 1;
    }
    m[off + |s|] := 0;
  }

  /** String `i` of `ss` is in the image where its pointer, at word `slot + i`, says: `used` bytes at the end belong to
      other strings. */
  ghost predicate Placed(m: seq<Byte>, ss: seq<Str>, slot: nat, used: nat, i: nat)
    requires i < |ss|
  {
    var end := used + Sum(ss, i + 1);
    && end <= |m| && 4 * (slot + i) + 4 <= |m|
    && Word(m, 4 * (slot + i)) == STACK_TOP - end
    && StringAt(m, |m| - end, ss[i])
  }

  ghost predicate AllPlaced(m: seq<Byte>, ss: seq<Str>, slot: nat, used: nat, n: nat)
    requires n <= |ss|
  {
    forall k :: 0 <= k < n ==> Placed(m, ss, slot, used, k)
  }

  lemma PlacedSame(m: seq<Byte>, m': seq<Byte>, ss: seq<Str>, slot: nat, used: nat, i: nat, lo: int, hi: int)
    requires i < |ss| && Placed(m, ss, slot, used, i) && Same(m, m', 0, lo) && Same(m, m', hi, |m|)
    requires 4 * (slot + i) + 4 <= lo && hi <= |m| - used - Sum(ss, i + 1)
    ensures Placed(m', ss, slot, used, i)
  {
    StringSame(m, m', hi, |m|, |m| - used - Sum(ss, i + 1), ss[i]);
  }

  /** The first `i` strings stay in place when only what lies between their pointers and them changes. */
  lemma PlacedStill(m: seq<Byte>, m': seq<Byte>, ss: seq<Str>, slot: nat, used: nat, i: nat)
    requires i <= |ss| && AllPlaced(m, ss, slot, used, i)
    requires Same(m, m', 0, 4 * (slot + i)) && Same(m, m', |m| - used - Sum(ss, i), |m|)
    ensures AllPlaced(m', ss, slot, used, i)
  {
    forall k | 0 <= k < i ensures Placed(m', ss, slot, used, k) {
      SumGrows(ss, k + 1, i);
      PlacedSame(m, m', ss, slot, used, k, 4 * (slot + i), |m| - used - Sum(ss, i));
    }
  }

  /** The loops at lines 91-104: strings go down from the end of the image, and their addresses into the table.  The
      assertions are those of lines 93 and 100. */
  method CopyStrings(m: array<Byte>, ss: seq<Str>, slot: nat, used: nat, table: nat) returns (end: nat)
    requires 4 * (slot + |ss|) <= table && used + Sum(ss, |ss|) <= m.Length - table && m.Length <= ARG_MAX
    modifies m
    ensures end == used + Sum(ss, |ss|)
    ensures AllPlaced(m[..], ss, slot, used, |ss|)
    ensures Same(old(m[..]), m[..], 0, 4 * slot) && Same(old(m[..]), m[..], 4 * (slot + |ss|), m.Length - end)
    ensures Same(old(m[..]), m[..], m.Length - used, m.Length)
  {
    end := used;
    var i := 0;
    while i < |ss|
      invariant i <= |ss| && end == used + Sum(ss, i)
      invariant AllPlaced(m[..], ss, slot, used, i)
      invariant Same(old(m[..]), m[..], 0, 4 * slot) && Same(old(m[..]), m[..], 4 * (slot + i), m.Length - end)
      invariant Same(old(m[..]), m[..], m.Length - used, m.Length)
    {
      SumGrows(ss, i + 1, |ss|);
      ghost var m0 := m[..];
      PutOne(m, ss, slot, used, i, end, table);
      PlacedStill(m0, m[..], ss, slot, used, i);
      end := end + |ss[i]| + 1;
      i := i + 1;
    }
  }

  method PutOne(m: array<Byte>, ss: seq<Str>, slot: nat, used: nat, i: nat, end: nat, table: nat)
    requires i < |ss| && end == used + Sum(ss, i) && used + Sum(ss, i + 1) <= m.Length - table
    requires 4 * (slot + i + 1) <= table && m.Length <= ARG_MAX
    modifies m
    ensures Placed(m[..], ss, slot, used, i)
    ensures Same(old(m[..]), m[..], 0, 4 * (slot + i))
    ensures Same(old(m[..]), m[..], 4 * (slot + i + 1), m.Length - end - |ss[i]| - 1)
    ensures Same(old(m[..]), m[..], m.Length - end, m.Length)
  {
    var off := end + |ss[i]| + 1;
    assert off <= m.Length - table;
    PutString(m, m.Length - off, ss[i]);
    ghost var m1 := m[..];
    PutWord(m, 4 * (slot + i), STACK_TOP - off);
    StringSame(m1, m[..], 4 * (slot + i) + 4, m.Length, m.Length - off, ss[i]);
  }

  /** The image of section 2.3.1: the count, the argument pointers, a null pointer, the environment pointers, a null
      pointer, and the auxiliary entries. */
  ghost predicate Image(m: seq<Byte>, argv: seq<Str>, envp: seq<Str>, fd: int) {
    var c, e := |argv|, |envp|;
    && 4 * (c + e + 3) + 2 * AUXV + Sum(argv, c) + Sum(envp, e) <= |m|
    && Word(m, 0) == c
    && AllPlaced(m, argv, 1, 0, c)
    && Word(m, 4 * (c + 1)) == 0
    && AllPlaced(m, envp, c + 2, Sum(argv, c), e)
    && Word(m, 4 * (c + e + 2)) == 0
    && Aux(m, 4 * (c + e + 3), fd)
  }

  ghost predicate Aux(m: seq<Byte>, a: nat, fd: int) {
    && a + 16 <= |m|
    && Word(m, a) == AT_EXECFD && Word(m, a + 4) == fd
    && Word(m, a + 8) == AT_NULL && Word(m, a + 12) == 0
  }

  /** Lines 77-87. */
  method PutHead(m: array<Byte>, c: nat, e: nat, fd: int)
    requires 4 * (c + e + 3) + 2 * AUXV <= m.Length <= ARG_MAX && 0 <= fd < 0x8000_0000
    requires forall k :: 0 <= k < m.Length ==> m[k] == 0
    modifies m
    ensures Word(m[..], 0) == c && Aux(m[..], 4 * (c + e + 3), fd)
    ensures forall k :: 4 <= k < 4 * (c + e + 3) ==> m[k] == 0
  {
    PutWord(m, 0, c);
    PutAux(m, 4 * (c + e + 3), fd);
  }

  method PutAux(m: array<Byte>, a: nat, fd: int)
    requires a + 2 * AUXV <= m.Length && 0 <= fd < 0x8000_0000
    modifies m
    ensures Aux(m[..], a, fd) && Same(old(m[..]), m[..], 0, a)
  {
    PutWord(m, a, AT_EXECFD);
    PutWord(m, a + 4, fd);
    PutWord(m, a + 8, AT_NULL);
    PutWord(m, a + 12, 0);
  }

  method Fill(m: array<Byte>, argv: seq<Str>, envp: seq<Str>, fd: int)
    requires 4 * (|argv| + |envp| + 3) + 2 * AUXV + Sum(argv, |argv|) + Sum(envp, |envp|) <= m.Length <= ARG_MAX
    requires 0 <= fd < 0x8000_0000 && forall k :: 0 <= k < m.Length ==> m[k] == 0
    modifies m
    ensures Image(m[..], argv, envp, fd)
  {
    var c, e := |argv|, |envp|;
    var table := 4 * (c + e + 3) + 2 * AUXV;
    PutHead(m, c, e, fd);
    ghost var m1 := m[..];
    var end := CopyStrings(m, argv, 1, 0, table);
    ghost var m2 := m[..];
    ArgvDone(m1, m2, argv, e, fd);
    var low := CopyStrings(m, envp, c + 2, end, table);
    EnvpDone(m2, m[..], argv, envp, fd, end, low);
  }

  lemma WordSame(m: seq<Byte>, m': seq<Byte>, lo: int, hi: int, off: nat)
    requires Same(m, m', lo, hi) && lo <= off && off + 4 <= hi && off + 4 <= |m|
    ensures Word(m', off) == Word(m, off)
  {
  }

  lemma ZeroSame(m: seq<Byte>, m': seq<Byte>, lo: int, hi: int, off: nat)
    requires Same(m, m', lo, hi) && lo <= off && off + 4 <= hi && off + 4 <= |m|
    requires forall k :: off <= k < off + 4 ==> m[k] == 0
    ensures Word(m', off) == 0
  {
  }

  lemma AuxSame(m: seq<Byte>, m': seq<Byte>, lo: int, hi: int, a: nat, fd: int)
    requires Same(m, m', lo, hi) && lo <= a && a + 16 <= hi && Aux(m, a, fd)
    ensures Aux(m', a, fd)
  {
    WordSame(m, m', lo, hi, a);
    WordSame(m, m', lo, hi, a + 4);
    WordSame(m, m', lo, hi, a + 8);
    WordSame(m, m', lo, hi, a + 12);
  }

  /** The image before the environment is copied. */
  ghost predicate Half(m: seq<Byte>, argv: seq<Str>, e: nat, fd: int) {
    var c := |argv|;
    && 4 * (c + e + 3) + 2 * AUXV + Sum(argv, c) <= |m|
    && Word(m, 0) == c
    && AllPlaced(m, argv, 1, 0, c)
    && Word(m, 4 * (c + 1)) == 0
    && Word(m, 4 * (c + e + 2)) == 0
    && Aux(m, 4 * (c + e + 3), fd)
  }

  lemma ArgvDone(m: seq<Byte>, m': seq<Byte>, argv: seq<Str>, e: nat, fd: int)
    requires 4 * (|argv| + e + 3) + 2 * AUXV + Sum(argv, |argv|) <= |m| == |m'|
    requires Word(m, 0) == |argv| && Aux(m, 4 * (|argv| + e + 3), fd)
    requires forall k :: 4 <= k < 4 * (|argv| + e + 3) ==> m[k] == 0
    requires AllPlaced(m', argv, 1, 0, |argv|)
    requires Same(m, m', 0, 4) && Same(m, m', 4 * (1 + |argv|), |m| - Sum(argv, |argv|))
    ensures Half(m', argv, e, fd)
  {
    var c, top := |argv|, |m| - Sum(argv, |argv|);
    WordSame(m, m', 0, 4, 0);
    ZeroSame(m, m', 4 * (1 + c), top, 4 * (c + 1));
    ZeroSame(m, m', 4 * (1 + c), top, 4 * (c + e + 2));
    AuxSame(m, m', 4 * (1 + c), top, 4 * (c + e + 3), fd);
  }

  lemma HeadSame(m: seq<Byte>, m': seq<Byte>, c: nat, e: nat, top: int, fd: int)
    requires 4 * (c + e + 3) + 2 * AUXV <= top <= |m| == |m'|
    requires Same(m, m', 0, 4 * (c + 2)) && Same(m, m', 4 * (c + 2 + e), top) && Aux(m, 4 * (c + e + 3), fd)
    ensures Word(m', 0) == Word(m, 0) && Word(m', 4 * (c + 1)) == Word(m, 4 * (c + 1))
    ensures Word(m', 4 * (c + e + 2)) == Word(m, 4 * (c + e + 2)) && Aux(m', 4 * (c + e + 3), fd)
  {
    WordSame(m, m', 0, 4 * (c + 2), 0);
    WordSame(m, m', 0, 4 * (c + 2), 4 * (c + 1));
    WordSame(m, m', 4 * (c + 2 + e), top, 4 * (c + e + 2));
    AuxSame(m, m', 4 * (c + 2 + e), top, 4 * (c + e + 3), fd);
  }

  lemma EnvpDone(m: seq<Byte>, m': seq<Byte>, argv: seq<Str>, envp: seq<Str>, fd: int, used: nat, end: nat)
    requires Half(m, argv, |envp|, fd) && used == Sum(argv, |argv|) && end == used + Sum(envp, |envp|)
    requires 4 * (|argv| + |envp| + 3) + 2 * AUXV + end <= |m| == |m'|
    requires AllPlaced(m', envp, |argv| + 2, used, |envp|)
    requires Same(m, m', 0, 4 * (|argv| + 2)) && Same(m, m', |m| - used, |m|)
    requires Same(m, m', 4 * (|argv| + 2 + |envp|), |m| - end)
    ensures Image(m', argv, envp, fd)
  {
    assert AllPlaced(m', argv, 1, 0, |argv|) by { PlacedStill(m, m', argv, 1, 0, |argv|); }
    HeadSame(m, m', |argv|, |envp|, |m| - end, fd);
  }

  // ---------- what the program finds ----------

  /** The string at an address of the image, up to its null byte. */
  function StringFrom(m: seq<Byte>, off: int): Str
    decreases |m| - off
  {
    if 0 <= off < |m| && m[off] != 0 then [m[off]] + StringFrom(m, off + 1) else []
  }

  /** The strings of a pointer table from word `w` up to its null pointer. */
  function Table(m: seq<Byte>, w: nat): seq<Str>
    decreases |m| - 4 * w
  {
    if 4 * w + 4 > |m| || Word(m, 4 * w) == 0 then []
    else [StringFrom(m, Word(m, 4 * w) - (STACK_TOP - |m|))] + Table(m, w + 1)
  }

  /** The auxiliary entries at `a` up to AT_NULL. */
  function Auxiliary(m: seq<Byte>, a: nat): seq<(int, int)>
    decreases |m| - a
  {
    if a + AUXV > |m| || Word(m, a) == AT_NULL then [] else [(Word(m, a), Word(m, a + 4))] + Auxiliary(m, a + AUXV)
  }

  lemma {:induction false} StringIs(m: seq<Byte>, off: nat, s: Str)
    requires StringAt(m, off, s) && Proper(s)
    ensures StringFrom(m, off) == s
    decreases |s|
  {
    if s != [] {
      assert m[off..off + |s|][0] == s[0];
      assert StringAt(m, off + 1, s[1..]);
      StringIs(m, off + 1, s[1..]);
    }
  }

  lemma {:induction false} TableIs(m: seq<Byte>, ss: seq<Str>, slot: nat, used: nat, i: nat)
    requires i <= |ss| && 4 * (slot + |ss|) + 4 <= |m| <= ARG_MAX && Word(m, 4 * (slot + |ss|)) == 0
    requires AllPlaced(m, ss, slot, used, |ss|) && AllProper(ss)
    ensures Table(m, slot + i) == ss[i..]
    decreases |ss| - i
  {
    if i < |ss| {
      TableStep(m, ss, slot, used, i);
      TableIs(m, ss, slot, used, i + 1);
      assert ss[i..] == [ss[i]] + ss[i + 1..];
    }
  }

  lemma TableStep(m: seq<Byte>, ss: seq<Str>, slot: nat, used: nat, i: nat)
    requires i < |ss| && Placed(m, ss, slot, used, i) && Proper(ss[i]) && |m| <= ARG_MAX
    ensures Table(m, slot + i) == [ss[i]] + Table(m, slot + i + 1)
  {
    StringIs(m, |m| - used - Sum(ss, i + 1), ss[i]);
  }

  lemma WholeTable(m: seq<Byte>, ss: seq<Str>, slot: nat, used: nat)
    requires 4 * (slot + |ss|) + 4 <= |m| <= ARG_MAX && Word(m, 4 * (slot + |ss|)) == 0
    requires AllPlaced(m, ss, slot, used, |ss|) && AllProper(ss)
    ensures Table(m, slot) == ss
  {
    TableIs(m, ss, slot, used, 0);
    assert slot + 0 == slot && ss[0..] == ss;
  }

  lemma AuxIs(m: seq<Byte>, a: nat, fd: int)
    requires Aux(m, a, fd)
    ensures Auxiliary(m, a) == [(AT_EXECFD, fd)]
  {
    assert Auxiliary(m, a + AUXV) == [];
  }

  /** What the program finds at its stack pointer. */
  datatype Program = Program(argc: int, argv: seq<Str>, envp: seq<Str>, aux: seq<(int, int)>)

  function Decode(m: seq<Byte>): Program
    requires |m| >= 4 && Word(m, 0) >= 0
  {
    var argc, argv := Word(m, 0), Table(m, 1);
    var envp := Table(m, argc + 2);
    Program(argc, argv, envp, Auxiliary(m, 4 * (argc + |envp| + 3)))
  }

  /** Loaded below the top of the stack, the image gives back the count, the arguments, the environment and the
      auxiliary entries. */
  lemma Decoded(m: seq<Byte>, argv: seq<Str>, envp: seq<Str>, fd: int)
    requires Image(m, argv, envp, fd) && |m| <= ARG_MAX
    requires AllProper(argv) && AllProper(envp)
    ensures Decode(m) == Program(|argv|, argv, envp, [(AT_EXECFD, fd)])
  {
    var one := 1;
    WholeTable(m, argv, one, 0);
    WholeTable(m, envp, |argv| + 2, Sum(argv, |argv|));
    AuxIs(m, 4 * (|argv| + |envp| + 3), fd);
  }

  /** Where string `k` starts in an image of `n` bytes, the arguments before the environment, and its length. */
  function Offset(argv: seq<Str>, envp: seq<Str>, n: int, k: nat): int
    requires k < |argv| + |envp|
  {
    if k < |argv| then n - Sum(argv, k + 1) else n - Sum(argv, |argv|) - Sum(envp, k - |argv| + 1)
  }

  function Length(argv: seq<Str>, envp: seq<Str>, k: nat): int
    requires k < |argv| + |envp|
  {
    if k < |argv| then |argv[k]| + 1 else |envp[k - |argv|]| + 1
  }

  /** The word of its pointer. */
  function Slot(argv: seq<Str>, k: nat): nat { if k < |argv| then 1 + k else 2 + k }

  /** The strings the pointers lead to overlap neither each other nor the tables. */
  lemma NoOverlap(m: seq<Byte>, argv: seq<Str>, envp: seq<Str>, fd: int, j: nat, k: nat)
    requires Image(m, argv, envp, fd) && j <= k < |argv| + |envp|
    ensures 4 * Slot(argv, k) + 4 <= |m|
    ensures Word(m, 4 * Slot(argv, k)) - (STACK_TOP - |m|) == Offset(argv, envp, |m|, k)
    ensures Offset(argv, envp, |m|, k) >= 4 * (|argv| + |envp| + 3) + 2 * AUXV
    ensures Offset(argv, envp, |m|, k) + Length(argv, envp, k) <= |m|
    ensures j < k ==> Offset(argv, envp, |m|, k) + Length(argv, envp, k) <= Offset(argv, envp, |m|, j)
  {
    var c := |argv|;
    if k < c {
      assert Placed(m, argv, 1, 0, k);
      SumGrows(argv, k + 1, c);
      if j < k { SumGrows(argv, j + 1, k); }
    } else {
      assert Placed(m, envp, c + 2, Sum(argv, c), k - c);
      SumGrows(envp, k - c + 1, |envp|);
      if j < c { SumGrows(argv, j + 1, c); } else if j < k { SumGrows(envp, j - c + 1, k - c); }
    }
  }

  // ---------- exec_safe_argv_dup ----------

  lemma Padded(size: int)
    requires 0 <= size <= ARG_MAX
    ensures var r := (size + 15) / 16 * 16; r % 16 == 0 && size <= r <= ARG_MAX
  {
  }

  method SafeArgvDup(argv: Vector, envp: Vector, fd: int, mapped: bool) returns (r: Result)
    requires 0 <= fd < 0x8000_0000
    ensures r.Ok? ==>
      && argv.List? && envp.List?
      && Image(r.image, argv.strings, envp.strings, fd)
      && |r.image| % 16 == 0 && |r.image| <= ARG_MAX
    ensures mapped ==>
      (r.Ok? <==> argv.List? && envp.List? && 4 + 2 * AUXV + Space(argv.strings) + Space(envp.strings) <= ARG_MAX)
    ensures r.Err? ==> r.error == EFAULT || r.error == E2BIG
  {
    if argv.Null? || envp.Null? { return Err(EFAULT); }
    var ok := CheckAddress(mapped);
    if !ok { return Err(EFAULT); }
    ok := CheckAddress(mapped);
    if !ok { return Err(EFAULT); }
    var size := 4 + 2 * AUXV;
    var argc, envc;
    size, argc := VectorCheck(argv, size, mapped);
    if size < 0 { return Err(-size); }
    size, envc := VectorCheck(envp, size, mapped);
    if size < 0 { return Err(-size); }
    Padded(size);
    if size % 16 != 0 { size := (size + 15) / 16 * 16; }
    var m := new Byte[size](_ => 0);
    Fill(m, argv.strings, envp.strings, fd);
    return Ok(m[..]);
  }
}
