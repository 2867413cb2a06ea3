/** Sequence laws used throughout. */
module Sequences {
  import opened Config

  lemma Regroup(a: seq<byte>, b: seq<byte>, c: seq<byte>)
    ensures a + b + c == a + (b + c)
  {
  }

  /** The `k` newest bytes. */
  function Last(s: seq<byte>, k: nat): (t: seq<byte>)
    requires k <= |s|
    ensures |t| == k
  {
    s[|s| - k..]
  }

  predicate EndsWith(s: seq<byte>, t: seq<byte>) {
    |t| <= |s| && t == Last(s, |t|)
  }
}
