/** The compression of one block in libc/src/crypt.c, against section 6.2.2 of FIPS 180-4. */
module Sha256 {
  import opened Numbers

  const BLOCK: nat := 64

  // ---------- section 6.2.2 of FIPS 180-4 ----------

  /** The working variables a to h, and the hash value H0 to H7. */
  datatype Vars<T> = Vars(a: T, b: T, c: T, d: T, e: T, f: T, g: T, h: T)

  /** The functions on words of section 4.1.2, the addition modulo 2^32, the reading of a word
      from four bytes, and the constants.  Nothing below depends on what they compute. */
  datatype Words<!T> = Words(
    add: (T, T) -> T, ch: (T, T, T) -> T, maj: (T, T, T) -> T,
    bigSigma0: T -> T, bigSigma1: T -> T, smallSigma0: T -> T, smallSigma1: T -> T,
    load: (Byte, Byte, Byte, Byte) -> T, k: seq<T>, iv: Vars<T>)
  {
    predicate Ok() { |k| == 64 }
  }

  /** Word `t` of the message schedule. */
  function W<T>(o: Words<T>, block: seq<Byte>, t: nat): T
    requires |block| == BLOCK && t < 64
  {
    if t < 16 then o.load(block[4 * t], block[4 * t + 1], block[4 * t + 2], block[4 * t + 3])
    else o.add(o.add(o.add(o.smallSigma1(W(o, block, t - 2)), W(o, block, t - 7)),
                     o.smallSigma0(W(o, block, t - 15))), W(o, block, t - 16))
  }

  function T1<T>(o: Words<T>, v: Vars<T>, k: T, w: T): T {
    o.add(o.add(o.add(o.add(v.h, o.bigSigma1(v.e)), o.ch(v.e, v.f, v.g)), k), w)
  }

  function T2<T>(o: Words<T>, v: Vars<T>): T { o.add(o.bigSigma0(v.a), o.maj(v.a, v.b, v.c)) }

  function Round<T>(o: Words<T>, v: Vars<T>, k: T, w: T): Vars<T> {
    Vars(o.add(T1(o, v, k, w), T2(o, v)), v.a, v.b, v.c, o.add(v.d, T1(o, v, k, w)), v.e, v.f, v.g)
  }

  function Rounds<T>(o: Words<T>, v: Vars<T>, block: seq<Byte>, t: nat): Vars<T>
    requires o.Ok() && |block| == BLOCK && t <= 64
  {
    if t == 0 then v else Round(o, Rounds(o, v, block, t - 1), o.k[t - 1], W(o, block, t - 1))
  }

  function Compressed<T>(o: Words<T>, v: Vars<T>, block: seq<Byte>): Vars<T>
    requires o.Ok() && |block| == BLOCK
  {
    var w := Rounds(o, v, block, |o.k|);
    Vars(o.add(v.a, w.a), o.add(v.b, w.b), o.add(v.c, w.c), o.add(v.d, w.d),
         o.add(v.e, w.e), o.add(v.f, w.f), o.add(v.g, w.g), o.add(v.h, w.h))
  }

  // ---------- the code, one block ----------

  /** Lines 131-168. */
  method Compress<T(0)>(o: Words<T>, v: Vars<T>, block: seq<Byte>) returns (r: Vars<T>)
    requires o.Ok() && |block| == BLOCK
    ensures r == Compressed(o, v, block)
  {
    var schedule := new T[64];
    FillSchedule(o, schedule, block);
    var a, b, c, d, e, f, g, h := v.a, v.b, v.c, v.d, v.e, v.f, v.g, v.h;
    var t := 0;
    while t < 64
      invariant t <= 64 && Vars(a, b, c, d, e, f, g, h) == Rounds(o, v, block, t)
    {
      var temp1 := o.add(o.add(o.add(o.add(h, o.bigSigma1(e)), o.ch(e, f, g)), o.k[t]), schedule[t]);
      var temp2 := o.add(o.bigSigma0(a), o.maj(a, b, c));
      h := g;
      g := f;
      f := e;
      e := o.add(d, temp1);
      d := c;
      c := b;
      b := a;
      a := o.add(temp1, temp2);
      t := t + 1;
    }
    r := Vars(o.add(v.a, a), o.add(v.b, b), o.add(v.c, c), o.add(v.d, d),
              o.add(v.e, e), o.add(v.f, f), o.add(v.g, g), o.add(v.h, h));
  }

  method FillSchedule<T>(o: Words<T>, schedule: array<T>, block: seq<Byte>)
    requires |block| == BLOCK && schedule.Length == 64
    modifies schedule
    ensures forall t :: 0 <= t < 64 ==> schedule[t] == W(o, block, t)
  {
    var t := 0;
    while t < 64
      invariant t <= 64 && forall s :: 0 <= s < t ==> schedule[s] == W(o, block, s)
    {
      if t <= 15 {
        schedule[t] := o.load(block[4 * t], block[4 * t + 1], block[4 * t + 2], block[4 * t + 3]);
      } else {
        schedule[t] := o.add(o.add(o.add(o.smallSigma1(schedule[t - 2]), schedule[t - 7]),
                                   o.smallSigma0(schedule[t - 15])), schedule[t - 16]);
      }
      t := t + 1;
    }
  }
}
