/** The padding and the streaming context of libc/src/crypt.c, against section 5.1.1 of FIPS 180-4. */
module Sha256Stream {
  import Division
  import opened Sequences
  import opened Numbers
  import opened Sha256

  /** A hash value to start from, and the use of one block. */
  datatype Hash<!V> = Hash(iv: V, step: (V, seq<Byte>) -> V)

  /** The hash value after the first `n` blocks of `m`. */
  function Fold<V>(h: Hash<V>, m: seq<Byte>, n: nat): V
    requires BLOCK * n <= |m|
  {
    if n == 0 then h.iv else h.step(Fold(h, m, n - 1), m[BLOCK * (n - 1)..BLOCK * n])
  }

  lemma SameSlice(m: seq<Byte>, m': seq<Byte>, from: nat, to: nat)
    requires from <= to <= |m| <= |m'| && m == m'[..|m|]
    ensures m[from..to] == m'[from..to]
  {
  }

  lemma {:induction false} FoldPrefix<V>(h: Hash<V>, m: seq<Byte>, m': seq<Byte>, n: nat)
    requires BLOCK * n <= |m| <= |m'| && m == m'[..|m|]
    ensures Fold(h, m, n) == Fold(h, m', n)
  {
    if n > 0 {
      FoldPrefix(h, m, m', n - 1);
      SameSlice(m, m', BLOCK * (n - 1), BLOCK * n);
    }
  }

  // ---------- padding ----------

  /** `n` in `k` bytes, highest first. */
  function Encode(n: nat, k: nat): (s: seq<Byte>)
    ensures |s| == k
  {
    if k == 0 then [] else Encode(n / 256, k - 1) + [n % 256]
  }

  function Power(k: nat): (p: nat)
    ensures p > 0
  {
    if k == 0 then 1 else 256 * Power(k - 1)
  }

  lemma {:induction false} EncodeInjective(m: nat, n: nat, k: nat)
    requires m < Power(k) && n < Power(k) && Encode(m, k) == Encode(n, k)
    ensures m == n
  {
    if k > 0 {
      var s, t := Encode(m / 256, k - 1), Encode(n / 256, k - 1);
      assert Encode(m, k)[..k - 1] == s && Encode(n, k)[..k - 1] == t;
      assert Encode(m, k)[k - 1] == m % 256 && Encode(n, k)[k - 1] == n % 256;
      EncodeInjective(m / 256, n / 256, k - 1);
    }
  }

  function Zeros(n: nat): (s: seq<Byte>)
    ensures |s| == n && forall i :: 0 <= i < n ==> s[i] == 0
  {
    seq(n, _ => 0)
  }

  /** Section 5.1.1 of FIPS 180-4, for a message of `len` bytes: a one bit, the fewest zero bits that leave room
      for the length, and the length in bits. */
  ghost predicate Standard(len: nat, pad: seq<Byte>) {
    exists z: nat :: z < 64 && (len + 1 + z) % 64 == 56 && pad == [0x80] + Zeros(z) + Encode(8 * len, 8)
  }

  /** Lines 97-99, in 32 bits, for a message of which `computed` bytes were counted. */
  function PadSize(computed: nat): int {
    var size := (computed + 1 + 8) % WORD;
    var full := (size + (BLOCK - size % BLOCK)) % WORD;
    (full - computed) % WORD
  }

  /** Lines 97-105, with the bit count of line 105 also in 32 bits. */
  function Pad(computed: nat): seq<Byte> {
    var size := PadSize(computed);
    if size < 9 then [] else [0x80] + Zeros(size - 9) + Encode(computed * 8 % WORD, 8)
  }

  lemma PadSizeIs(len: nat)
    ensures PadSize(len % WORD) == 73 - (len + 9) % 64
  {
    var c := len % WORD;
    Congruent(len + 9, c + 9, len / WORD);
    Congruent(c + 9, (c + 9) % WORD, (c + 9) / WORD);
    Wraps(c + 9, 64 - (len + 9) % 64, c);
  }

  lemma Congruent(n: nat, r: nat, q: nat)
    requires n == WORD * q + r
    ensures n % 64 == r % 64
  {
    Division.Shift(r, 64, 0x400_0000 * q);
  }

  lemma Wraps(x: nat, add: nat, c: nat)
    requires c <= x <= c + 9 && add <= 64 && c < WORD
    ensures ((x % WORD + add) % WORD - c) % WORD == x + add - c
  {
  }

  lemma Power8()
    ensures Power(8) == 0x1_0000_0000_0000_0000
  {
    assert Power(2) == 0x1_0000 && Power(4) == 0x1_0000_0000 && Power(6) == 0x1_0000_0000_0000;
  }

  /** Zero bytes after the 0x80: one block too many exactly when the length leaves no byte to spare. */
  lemma Spare(len: nat)
    ensures var z := 64 - (len + 9) % 64;
      && (len + 1 + z) % 64 == 56
      && (z < 64 <==> len % 64 != 55)
  {
    var r := len % 64;
    Division.Shift(r + 9, 64, len / 64);
    Division.Shift(r + 1 + 64 - (r + 9) % 64, 64, len / 64);
    assert (len + 9) % 64 == (r + 9) % 64;
    assert len + 1 + 64 - (len + 9) % 64 == r + 1 + 64 - (r + 9) % 64 + 64 * (len / 64);
  }

  lemma PadParts(len: nat)
    ensures var z := 64 - (len + 9) % 64; Pad(len % WORD) == [0x80] + Zeros(z) + Encode(len % WORD * 8 % WORD, 8)
  {
    PadSizeIs(len);
  }

  lemma Framed(z: nat, y: nat, e: seq<Byte>, f: seq<Byte>)
    requires |e| == 8 == |f| && [0x80] + Zeros(z) + e == [0x80] + Zeros(y) + f
    ensures z == y && e == f
  {
    var s := [0x80] + Zeros(z) + e;
    assert |s| == 9 + z && |s| == 9 + y;
    assert s[1 + z..] == e && s[1 + z..] == f;
  }

  /** Up to the longest message that the standard allows, the padding is the standard one exactly when the length is
      not 55 modulo 64 and the number of bits fits the 32 bits it is computed in. */
  lemma PadStandard(len: nat)
    requires len < 0x2000_0000_0000_0000
    ensures Standard(len, Pad(len % WORD)) <==> len % 64 != 55 && len < 0x2000_0000
  {
    var z: nat := 64 - (len + 9) % 64;
    PadParts(len);
    Spare(len);
    StandardIs(len, z, len % WORD * 8 % WORD);
  }

  lemma StandardIs(len: nat, z: nat, bits: nat)
    requires len < 0x2000_0000_0000_0000 && (len + 1 + z) % 64 == 56 && bits == len % WORD * 8 % WORD
    ensures Standard(len, [0x80] + Zeros(z) + Encode(bits, 8)) <==> z < 64 && len < 0x2000_0000
  {
    BitsFit(len, bits);
    if z < 64 && bits == 8 * len { assert Standard(len, [0x80] + Zeros(z) + Encode(8 * len, 8)); }
    if Standard(len, [0x80] + Zeros(z) + Encode(bits, 8)) { StandardOnly(len, z, bits); }
  }

  lemma BitsFit(len: nat, bits: nat)
    requires bits == len % WORD * 8 % WORD
    ensures bits < WORD && (bits == 8 * len <==> len < 0x2000_0000)
  {
  }

  lemma StandardOnly(len: nat, z: nat, bits: nat)
    requires len < 0x2000_0000_0000_0000 && bits < WORD && Standard(len, [0x80] + Zeros(z) + Encode(bits, 8))
    ensures z < 64 && bits == 8 * len
  {
    var pad := [0x80] + Zeros(z) + Encode(bits, 8);
    var y: nat :| y < 64 && (len + 1 + y) % 64 == 56 && pad == [0x80] + Zeros(y) + Encode(8 * len, 8);
    Framed(z, y, Encode(bits, 8), Encode(8 * len, 8));
    Power8();
    EncodeInjective(bits, 8 * len, 8);
  }

  /** The message of 55 bytes: a block of padding too many. */
  lemma PadFails()
    ensures !Standard(55, Pad(55))
  {
    PadStandard(55);
  }

  // ---------- the streaming context ----------

  method CopyIn(buf: array<Byte>, at: nat, bytes: seq<Byte>)
    requires at + |bytes| <= buf.Length
    modifies buf
    ensures buf[..] == Put(old(buf[..]), at, bytes)
  {
    var i := 0;
    while i < |bytes|
      invariant i <= |bytes|
      invariant forall k :: at <= k < at + i ==> buf[k] == bytes[k - at]
      invariant forall k :: 0 <= k < at || at + i <= k < buf.Length ==> buf[k] == old(buf[k])
    {
      buf[at + i] := bytes[i];
      i := i + 1;
    }
  }

  /** What the fields of a context are for the message `m`, of which `n` blocks have been used; the rest of the
      buffer does not matter. */
  ghost predicate Holds<V>(h: Hash<V>, m: seq<Byte>, n: nat, computed: nat, work: V, tail: seq<Byte>)
  {
    && BLOCK * n <= |m|
    && computed == |m| % WORD
    && work == Fold(h, m, n)
    && tail == m[BLOCK * n..]
  }

  class Context<V> {
    const h: Hash<V>
    const buf: array<Byte>
    var bufEnd: nat
    var computed: nat
    var work: V
    ghost var msg: seq<Byte>
    ghost var blocks: nat

    ghost predicate Valid()
      reads this, buf
    {
      buf.Length == BLOCK && bufEnd < BLOCK && Holds(h, msg, blocks, computed, work, buf[..bufEnd])
    }

    /** sha256_init_internal. */
    constructor (hash: Hash<V>)
      ensures Valid() && h == hash && msg == [] && fresh(buf)
    {
      h := hash;
      buf := new Byte[BLOCK](_ => 0);
      bufEnd, computed, work := 0, 0, hash.iv;
      msg, blocks := [], 0;
    }

    /** The structure copy at line 180. */
    constructor Copy(c: Context<V>)
      requires c.Valid()
      ensures Valid() && h == c.h && msg == c.msg && fresh(buf)
    {
      h := c.h;
      buf := new Byte[BLOCK](i requires 0 <= i < BLOCK reads c.buf => c.buf[i]);
      bufEnd, computed, work := c.bufEnd, c.computed, c.work;
      msg, blocks := c.msg, c.blocks;
      new;
      assert buf[..bufEnd] == c.buf[..bufEnd];
    }

    lemma BufferEnd()
      requires Valid()
      ensures bufEnd == |msg| % BLOCK
    {
      Division.Shift(bufEnd, BLOCK, blocks);
    }

    /** sha256_update_internal appends to the message, whatever the size of the pieces, unless the sum at
        line 118 wraps around: then line 119 copies past the end of the buffer. */
    method Update(input: seq<Byte>) returns (overrun: bool)
      requires Valid() && |input| < WORD
      modifies this, buf
      ensures overrun <==> |old(msg)| % BLOCK + |input| >= WORD
      ensures !overrun ==> Valid() && msg == old(msg) + input
    {
      BufferEnd();
      overrun := false;
      if (bufEnd + |input|) % WORD < BLOCK {
        overrun := bufEnd + |input| > BLOCK;
        if !overrun { Keep(input); }
      } else {
        Consume(input);
      }
    }

    /** Lines 117-122: the piece fits the buffer. */
    method Keep(input: seq<Byte>)
      requires Valid() && bufEnd + |input| < BLOCK
      modifies this, buf
      ensures Valid() && msg == old(msg) + input
    {
      HoldsMore(h, msg, blocks, computed, work, buf[..bufEnd], input);
      PutPrefix(buf[..], bufEnd, input);
      computed := (computed + |input|) % WORD;
      CopyIn(buf, bufEnd, input);
      bufEnd := bufEnd + |input|;
      msg := msg + input;
    }

    /** Lines 117 and 126-176: the buffer fills up and whole blocks are used. */
    method Consume(input: seq<Byte>)
      requires Valid() && bufEnd + |input| >= BLOCK
      modifies this, buf
      ensures Valid() && msg == old(msg) + input
    {
      HoldsMore(h, msg, blocks, computed, work, buf[..bufEnd], input);
      var first := BLOCK - bufEnd;
      FirstBlock(buf[..], bufEnd, input);
      computed := (computed + |input|) % WORD;
      CopyIn(buf, bufEnd, input[..first]);
      msg := msg + input;
      Blocks(input[first..]);
    }

    /** The loop at lines 131-176: the buffer holds a block, and `rest` is the input behind it. */
    method Blocks(rest: seq<Byte>)
      requires buf.Length == BLOCK && Holds(h, msg, blocks, computed, work, buf[..] + rest)
      modifies this, buf
      ensures Valid() && msg == old(msg)
    {
      var chunks := 1 + |rest| / BLOCK;
      var i := 0;
      while i < chunks
        invariant i <= chunks && unchanged(this`msg) && unchanged(this`computed)
        invariant i < chunks ==> Holds(h, msg, blocks, computed, work, buf[..] + rest[BLOCK * i..])
        invariant i == chunks ==> Valid()
      {
        if i != chunks - 1 {
          OneBlock(rest[BLOCK * i..], BLOCK);
          assert rest[BLOCK * i..][BLOCK..] == rest[BLOCK * (i + 1)..] && buf[..BLOCK] == buf[..];
        } else {
          OneBlock(rest[BLOCK * i..], |rest| % BLOCK);
          bufEnd := |rest| % BLOCK;
          assert buf[..bufEnd] + [] == buf[..bufEnd];
        }
        i := i + 1;
      }
    }

    /** One turn of the loop: use the block in the buffer and copy `k` bytes of what follows it. */
    method OneBlock(rest: seq<Byte>, k: nat)
      requires buf.Length == BLOCK && Holds(h, msg, blocks, computed, work, buf[..] + rest)
      requires k <= BLOCK && k <= |rest|
      modifies this`work, this`blocks, buf
      ensures Holds(h, msg, blocks, computed, work, buf[..k] + rest[k..])
    {
      HoldsStep(h, msg, blocks, computed, work, buf[..], rest);
      work := h.step(work, buf[..]);
      PutPrefix(buf[..], 0, rest[..k]);
      CopyIn(buf, 0, rest[..k]);
      blocks := blocks + 1;
      assert rest[..k] + rest[k..] == rest;
    }

    /** Lines 180-182. */
    method Padded() returns (temp: Context<V>)
      requires Valid()
      ensures fresh(temp) && temp.Valid() && temp.h == h && temp.msg == msg + Pad(|msg| % WORD)
    {
      temp := new Context.Copy(this);
      temp.PadBlock();
    }

    /** sha256_finalize_internal hashes the padded message and leaves the context as it was. */
    method Finalize(store: V -> seq<Byte>) returns (hash: seq<Byte>)
      requires Valid()
      ensures IsPaddedDigest(h, store, msg + Pad(|msg| % WORD), hash)
    {
      var temp := Padded();
      PadFits(|msg|);
      AllUsed(h, temp.msg, temp.blocks, temp.computed, temp.work, temp.buf[..temp.bufEnd], store);
      hash := store(temp.work);
    }

    /** sha2_pad_block. */
    method PadBlock()
      requires Valid()
      modifies this, buf
      ensures Valid() && msg == old(msg) + Pad(|old(msg)| % WORD)
    {
      PadFits(|msg|);
      var overrun := Update(Pad(computed));
    }
  }

  lemma PutPrefix(s: seq<Byte>, at: nat, bytes: seq<Byte>)
    requires at + |bytes| <= |s|
    ensures Put(s, at, bytes)[..at + |bytes|] == s[..at] + bytes
  {
  }

  lemma Modulo(a: nat, b: nat)
    ensures (a % WORD + b) % WORD == (a + b) % WORD
  {
    Division.Shift(a % WORD + b, WORD, a / WORD);
  }

  /** More input, before any of it is used. */
  lemma HoldsMore<V>(h: Hash<V>, m: seq<Byte>, n: nat, computed: nat, work: V, tail: seq<Byte>, input: seq<Byte>)
    requires Holds(h, m, n, computed, work, tail)
    ensures Holds(h, m + input, n, (computed + |input|) % WORD, work, tail + input)
  {
    var r := m + input;
    Modulo(|m|, |input|);
    TailMore(m, input, BLOCK * n);
    assert m == r[..|m|];
    FoldPrefix(h, m, r, n);
    assert BLOCK * n <= |r|;
    assert (computed + |input|) % WORD == |r| % WORD;
    assert work == Fold(h, r, n);
    assert tail + input == r[BLOCK * n..];
  }

  lemma TailMore(m: seq<Byte>, input: seq<Byte>, at: nat)
    requires at <= |m|
    ensures (m + input)[at..] == m[at..] + input
  {
  }

  /** A block is used. */
  lemma HoldsStep<V>(h: Hash<V>, m: seq<Byte>, n: nat, computed: nat, work: V, block: seq<Byte>, rest: seq<Byte>)
    requires |block| == BLOCK && Holds(h, m, n, computed, work, block + rest)
    ensures Holds(h, m, n + 1, computed, h.step(work, block), rest)
  {
    var at := BLOCK * n;
    assert m[at..] == block + rest;
    assert m[at..at + BLOCK] == m[at..][..BLOCK] == block;
    assert m[at + BLOCK..] == m[at..][BLOCK..] == rest;
  }

  /** Of a message of whole blocks every block has been used. */
  lemma AllUsed<V>(h: Hash<V>, m: seq<Byte>, n: nat, computed: nat, work: V, tail: seq<Byte>, store: V -> seq<Byte>)
    requires Holds(h, m, n, computed, work, tail) && |tail| < BLOCK && |m| % BLOCK == 0
    ensures IsPaddedDigest(h, store, m, store(work))
  {
    Division.Floor(|m|, BLOCK, n);
  }

  /** The buffer filled up from the input is followed by the rest of the input. */
  lemma FirstBlock(buf: seq<Byte>, end: nat, input: seq<Byte>)
    requires |buf| == BLOCK && end < BLOCK <= end + |input|
    ensures Put(buf, end, input[..BLOCK - end]) + input[BLOCK - end..] == buf[..end] + input
  {
  }

  /** The padding completes the last block. */
  lemma PadFits(len: nat)
    ensures |Pad(len % WORD)| <= 73 && (len + |Pad(len % WORD)|) % BLOCK == 0
  {
    PadParts(len);
    Spare(len);
    var z := 64 - (len + 9) % 64;
    Completes(len + 1 + z);
  }

  lemma Completes(x: nat)
    requires x % 64 == 56
    ensures (x + 8) % 64 == 0
  {
    Division.Shift(0, 64, x / 64 + 1);
  }

  /** Contexts that hold the same message are the same, however it was cut into pieces. */
  lemma SplitsAgree<V>(c: Context<V>, d: Context<V>)
    requires c.Valid() && d.Valid() && c.h == d.h && c.msg == d.msg
    ensures c.bufEnd == d.bufEnd && c.computed == d.computed && c.work == d.work
    ensures c.buf[..c.bufEnd] == d.buf[..d.bufEnd]
  {
    assert |c.msg| == BLOCK * c.blocks + c.bufEnd && |d.msg| == BLOCK * d.blocks + d.bufEnd;
  }

  function Joined(pieces: seq<seq<Byte>>): seq<Byte>
    decreases |pieces|
  {
    if pieces == [] then [] else Joined(pieces[..|pieces| - 1]) + pieces[|pieces| - 1]
  }

  lemma {:induction false} JoinedGrows(pieces: seq<seq<Byte>>, i: nat)
    requires i <= |pieces|
    ensures |Joined(pieces[..i])| <= |Joined(pieces)|
    decreases |pieces|
  {
    if i < |pieces| {
      var n := |pieces| - 1;
      JoinedGrows(pieces[..n], i);
      assert pieces[..n][..i] == pieces[..i];
    } else {
      assert pieces[..i] == pieces;
    }
  }

  /** Feeding a message in pieces leaves a context just like feeding it whole. */
  method Feed<V>(hash: Hash<V>, pieces: seq<seq<Byte>>) returns (c: Context<V>, whole: Context<V>)
    requires |Joined(pieces)| < WORD
    ensures c.Valid() && whole.Valid() && c.msg == whole.msg == Joined(pieces)
    ensures c.bufEnd == whole.bufEnd && c.computed == whole.computed && c.work == whole.work
    ensures c.buf[..c.bufEnd] == whole.buf[..whole.bufEnd]
  {
    c := new Context(hash);
    var i := 0;
    assert pieces[..0] == [];
    while i < |pieces|
      invariant i <= |pieces| && c.Valid() && c.h == hash && c.msg == Joined(pieces[..i]) && fresh(c) && fresh(c.buf)
    {
      assert pieces[..i + 1][..i] == pieces[..i];
      JoinedGrows(pieces, i + 1);
      var overrun := c.Update(pieces[i]);
      i := i + 1;
    }
    assert pieces[..i] == pieces;
    whole := new Context(hash);
    var overrun := whole.Update(Joined(pieces));
    SplitsAgree(c, whole);
  }

  /** Section 6.2 of FIPS 180-4: `hash` is the digest of `m` with standard padding. */
  ghost predicate IsDigest<V>(h: Hash<V>, store: V -> seq<Byte>, m: seq<Byte>, hash: seq<Byte>) {
    exists pad :: Standard(|m|, pad) && IsPaddedDigest(h, store, m + pad, hash)
  }

  ghost predicate IsPaddedDigest<V>(h: Hash<V>, store: V -> seq<Byte>, padded: seq<Byte>, hash: seq<Byte>) {
    |padded| % BLOCK == 0 && hash == store(Fold(h, padded, |padded| / BLOCK))
  }

  method Sum<V>(h: Hash<V>, store: V -> seq<Byte>, salt: seq<Byte>, key: seq<Byte>) returns (hash: seq<Byte>)
    requires |salt| + |key| < WORD
    ensures var len := |salt| + |key|; len % 64 != 55 && len < 0x2000_0000 ==> IsDigest(h, store, salt + key, hash)
  {
    var c := new Context(h);
    var overrun := c.Update(salt);
    overrun := c.Update(key);
    ghost var m := salt + key;
    assert c.msg == m;
    hash := c.Finalize(store);
    PadStandard(|m|);
    assert IsPaddedDigest(h, store, m + Pad(|m| % WORD), hash);
  }
}
