/** Overwriting part of a sequence. */
module Sequences {
  function Put<T>(m: seq<T>, at: nat, s: seq<T>): (r: seq<T>)
    requires at + |s| <= |m|
    ensures |r| == |m|
  {
    m[..at] + s + m[at + |s|..]
  }
}
