/** Fixed-size byte buffers that are filled field by field, and reading fields off them. */
module FixedBuffer {
  import opened Bytes

  type Digest = d: seq<Byte> | |d| == 32 witness seq(32, _ => 0)

  function Zeros(n: nat): (r: seq<Byte>)
    ensures |r| == n
  {
    seq(n, _ => 0)
  }

  predicate AllZero(b: seq<Byte>) { forall i | 0 <= i < |b| :: b[i] == 0 }

  /** The bytes of an ASCII text. */
  function Text(ascii: string): (r: seq<Byte>)
    requires forall i | 0 <= i < |ascii| :: (ascii[i] as int) < 128
    ensures |r| == |ascii|
  {
    seq(|ascii|, i requires 0 <= i < |ascii| => ascii[i] as int)
  }

  lemma ZerosAre(b: seq<Byte>)
    ensures AllZero(b) <==> b == Zeros(|b|)
  {
  }

  /** A stretch of a blob is two pieces one after the other exactly when each is in its place. */
  lemma SplitIs(b: seq<Byte>, lo: nat, hi: nat, first: seq<Byte>, rest: seq<Byte>)
    requires lo + |first| + |rest| == hi <= |b|
    ensures b[lo..hi] == first + rest <==> b[lo..lo + |first|] == first && b[lo + |first|..hi] == rest
  {
    assert b[lo..hi] == b[lo..lo + |first|] + b[lo + |first|..hi];
    assert (first + rest)[..|first|] == first && (first + rest)[|first|..] == rest;
  }

  /** The buffer begins with `done` and is zero from there on. */
  ghost predicate Filled(a: array<Byte>, done: seq<Byte>)
    reads a
  {
    |done| <= a.Length && a[..|done|] == done && forall i | |done| <= i < a.Length :: a[i] == 0
  }

  method CopyInto(a: array<Byte>, ghost done: seq<Byte>, at: nat, piece: seq<Byte>)
    requires at == |done| && at + |piece| <= a.Length && Filled(a, done)
    modifies a
    ensures Filled(a, done + piece)
  {
    forall i | 0 <= i < |piece| {
      a[at + i] := piece[i];
    }
    assert forall i | 0 <= i < at :: a[i] == done[i];
  }
}
