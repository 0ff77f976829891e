/** Bytes, and facts about sequences, each proved on its own so that larger proofs
    need not look inside slices. */
module Sequences {

  type byte = bv8

  function Zeros(n: nat): (z: seq<byte>)
    ensures |z| == n && forall i :: 0 <= i < n ==> z[i] == 0
  {
    seq(n, _ => 0)
  }

  /** `s` with the bytes from `x` on replaced by `b`. */
  function Replaced(s: seq<byte>, x: nat, b: seq<byte>): (r: seq<byte>)
    requires x + |b| <= |s|
    ensures |r| == |s|
    ensures forall j :: 0 <= j < |s| ==> r[j] == if x <= j < x + |b| then b[j - x] else s[j]
  {
    s[..x] + b + s[x + |b|..]
  }

  lemma SliceStep<T>(s: seq<T>, a: nat, b: nat, c: nat)
    requires a <= b <= c <= |s|
    ensures s[a..c] == s[a..b] + s[b..c]
  {
  }

  lemma SliceOfSlice<T>(s: seq<T>, lo: nat, hi: nat, a: nat, b: nat)
    requires lo <= hi <= |s| && a <= b <= hi - lo
    ensures s[lo..hi][a..b] == s[lo + a..lo + b]
  {
    forall i | 0 <= i < b - a
      ensures s[lo..hi][a..b][i] == s[lo + a..lo + b][i]
    {
      assert s[lo..hi][a..b][i] == s[lo..hi][a + i] == s[lo + a + i];
    }
  }

  lemma SliceOfDrop<T>(s: seq<T>, n: nat, a: nat, b: nat)
    requires n <= |s| && a <= b <= |s| - n
    ensures s[n..][a..b] == s[n + a..n + b]
  {
    assert s[n..] == s[n..|s|];
    SliceOfSlice(s, n, |s|, a, b);
  }

  lemma ConcatAssociates<T>(a: seq<T>, b: seq<T>, c: seq<T>)
    ensures a + (b + c) == (a + b) + c
  {
  }

  lemma ConcatParts<T>(a: seq<T>, b: seq<T>)
    ensures (a + b)[..|a|] == a && (a + b)[|a|..] == b
  {
  }

  /** The parts of a sequence that starts with `a + (b + c)`. */
  lemma InnerSlices<T>(a: seq<T>, b: seq<T>, c: seq<T>, s: seq<T>)
    requires a + (b + c) <= s
    ensures s[|a|..|a| + |b|] == b
    ensures s[|a| + |b|..|a| + |b| + |c|] == c
  {
    assert s[..|a| + |b| + |c|] == a + (b + c);
  }
}
