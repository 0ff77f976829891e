/** Cluster lists of exFAT files, as the FAT and the allocation bitmap describe them. */
module ExfatChain {
  const FREE: nat := 0
  const FIRST_DATA: nat := 2
  const LAST_DATA: nat := 0xffff_fff6
  const END: nat := 0xffff_ffff
  const WRAP: nat := 0x1_0000_0000

  predicate Invalid(c: nat) {
    c < FIRST_DATA || LAST_DATA < c
  }

  ghost function Elems(s: seq<nat>): set<nat> {
    set c | c in s
  }

  predicate InVolume(c: nat, size: nat) {
    FIRST_DATA <= c < FIRST_DATA + size
  }

  /** The clusters of a volume with `size` of them. */
  ghost function Clusters(size: nat): set<nat> {
    set c: nat | c < FIRST_DATA + size && InVolume(c, size)
  }

  predicate IsFree(flags: seq<bool>, size: nat, c: nat)
    requires size <= |flags|
  {
    InVolume(c, size) && !flags[c - FIRST_DATA]
  }

  /** The clusters whose flag is clear. */
  ghost function FreeSet(flags: seq<bool>, size: nat): set<nat>
    requires size <= |flags|
  {
    set c: nat | c < FIRST_DATA + size && IsFree(flags, size, c)
  }

  lemma FlagCleared(flags: seq<bool>, size: nat, c: nat)
    requires size <= |flags| && InVolume(c, size)
    ensures FreeSet(flags[c - FIRST_DATA := false], size) == FreeSet(flags, size) + {c}
    ensures FreeSet(flags[c - FIRST_DATA := true], size) == FreeSet(flags, size) - {c}
  {
  }

  /** No cluster appears twice, and all belong to the volume. */
  ghost predicate Listed(cl: seq<nat>, size: nat) {
    && (forall i :: 0 <= i < |cl| ==> InVolume(cl[i], size))
    && (forall i, j :: 0 <= i < j < |cl| ==> cl[i] != cl[j])
  }

  /** Each cluster leads to the following one. */
  ghost predicate Linked(fat: seq<nat>, contiguous: bool, cl: seq<nat>) {
    if contiguous then
      forall i :: 0 <= i < |cl| ==> cl[i] == cl[0] + i
    else
      forall i :: 0 <= i < |cl| - 1 ==> cl[i] < |fat| && fat[cl[i]] == cl[i + 1]
  }

  /** The last cluster of a chain is marked as such. */
  ghost predicate Ended(fat: seq<nat>, contiguous: bool, cl: seq<nat>) {
    contiguous || cl == [] || (cl[|cl| - 1] < |fat| && fat[cl[|cl| - 1]] == END)
  }

  /** `exfat_next_cluster` */
  function Next(fat: seq<nat>, contiguous: bool, c: nat): nat
    requires contiguous || c < |fat|
  {
    if contiguous then c + 1 else fat[c]
  }

  /** A FAT in which cluster 2 is followed by cluster 4, the last one. */
  lemma ChainExample(fat: seq<nat>)
    requires |fat| == 5 && fat[2] == 4 && fat[4] == 0xffff_ffff
    ensures Linked(fat, false, [2, 4]) && Ended(fat, false, [2, 4]) && !Ended(fat, false, [2])
    ensures Next(fat, false, 2) == 4 && Invalid(Next(fat, false, 4))
    ensures Invalid(0) && Invalid(1) && !Invalid(2) && !Invalid(0xffff_fff6) && Invalid(0xffff_fff7)
  {
  }

  /** The cluster reached from `start` after `n` steps, walking afresh. */
  ghost function Walk(fat: seq<nat>, contiguous: bool, start: nat, n: nat): nat {
    if n == 0 then start
    else
      var c := Walk(fat, contiguous, start, n - 1);
      if contiguous || c < |fat| then Next(fat, contiguous, c) else END
  }

  lemma {:induction false} WalkIsList(fat: seq<nat>, contiguous: bool, cl: seq<nat>, n: nat)
    requires n < |cl| && Linked(fat, contiguous, cl)
    ensures Walk(fat, contiguous, cl[0], n) == cl[n]
  {
    if n != 0 {
      WalkIsList(fat, contiguous, cl, n - 1);
    }
  }

  /** Conversely the walk determines the list. */
  lemma ListIsWalk(fat: seq<nat>, contiguous: bool, cl: seq<nat>, other: seq<nat>)
    requires |cl| == |other| && Linked(fat, contiguous, cl) && Linked(fat, contiguous, other)
    requires cl == [] || cl[0] == other[0]
    ensures cl == other
  {
    forall i | 0 <= i < |cl|
      ensures cl[i] == other[i]
    {
      WalkIsList(fat, contiguous, cl, i);
      WalkIsList(fat, contiguous, other, i);
    }
  }

  lemma ListedPrefix(cl: seq<nat>, size: nat, n: nat)
    requires n <= |cl| && Listed(cl, size)
    ensures Listed(cl[..n], size)
  {
  }

  lemma ListedAppend(cl: seq<nat>, size: nat, c: nat)
    requires Listed(cl, size) && InVolume(c, size) && c !in cl
    ensures Listed(cl + [c], size)
  {
  }

  lemma ElemsAppend(cl: seq<nat>, c: nat)
    ensures Elems(cl + [c]) == Elems(cl) + {c}
  {
  }

  lemma ElemsSplit(cl: seq<nat>, n: nat)
    requires n <= |cl|
    ensures Elems(cl) == Elems(cl[..n]) + Elems(cl[n..])
  {
    forall c | c in cl
      ensures c in cl[..n] || c in cl[n..]
    {
      var i :| 0 <= i < |cl| && cl[i] == c;
      if i < n {
        assert cl[..n][i] == c;
      } else {
        assert cl[n..][i - n] == c;
      }
    }
  }

  /** The parts of a list have nothing in common. */
  lemma PartsApart(cl: seq<nat>, size: nat, n: nat)
    requires n <= |cl| && Listed(cl, size)
    ensures Elems(cl[..n]) !! Elems(cl[n..])
  {
  }

  lemma {:induction false} ElemsSize(cl: seq<nat>, size: nat)
    requires Listed(cl, size)
    ensures |Elems(cl)| == |cl|
  {
    if cl == [] {
      assert Elems(cl) == {};
    } else {
      var n := |cl| - 1;
      ListedPrefix(cl, size, n);
      ElemsSize(cl[..n], size);
      assert cl == cl[..n] + [cl[n]];
      ElemsAppend(cl[..n], cl[n]);
    }
  }

  // ----- where the allocator looks

  /** The place the search starts at; `hint` is reduced in 32-bit arithmetic. */
  function SearchStart(hint: nat, size: nat): (s: nat)
    requires hint < WRAP
    ensures s == 0 || s < size
  {
    var h := (hint + WRAP - FIRST_DATA) % WRAP;
    if size <= h then 0 else h
  }

  /** `r` is the first free cluster, counting up from `start` and around. */
  ghost predicate FirstFit(free: set<nat>, start: nat, r: nat) {
    && r in free
    && (if start <= r then forall c :: c in free ==> c < start || r <= c
        else forall c :: c in free ==> r <= c < start)
  }

  /** The cluster just below `last` is free and no other is. */
  ghost predicate OneBelow(free: set<nat>, last: nat) {
    forall c :: c in free <==> c + 1 == last
  }

  /** Growing after `last`, the cluster just below it is taken only when nothing else is left. */
  lemma BelowIsLast(free: set<nat>, size: nat, last: nat, r: nat)
    requires free <= Clusters(size) && last in Clusters(size) && last !in free && last + 1 < WRAP
    requires FirstFit(free, SearchStart(last + 1, size) + FIRST_DATA, r)
    ensures r + 1 == last <==> OneBelow(free, last)
  {
    assert SearchStart(last + 1, size) + FIRST_DATA == if last + 1 < FIRST_DATA + size then last + 1 else FIRST_DATA;
    if r + 1 == last {
      forall c | c in free
        ensures c == r
      {
        assert c in Clusters(size);
      }
    }
  }

  /** The first cluster of an empty file has nothing free below it. */
  lemma FirstHasNoneBelow(free: set<nat>, size: nat, r: nat)
    requires free <= Clusters(size) && size + FIRST_DATA <= LAST_DATA + 1
    requires FirstFit(free, SearchStart(0, size) + FIRST_DATA, r)
    ensures r - 1 !in free
  {
  }

  /** Two clusters, 2 and 3; a file holds 3 and 2 is free. Growing it takes 2, which does not follow 3. */
  lemma BelowExample()
    ensures FirstFit({2}, FIRST_DATA + SearchStart(3 + 1, 2), 2) && OneBelow({2}, 3)
    ensures !Linked([0, 0, 0, 0], true, [3, 2])
  {
    assert [3, 2][1] == 2;
  }
}
