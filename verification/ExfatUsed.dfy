/** src/exfat/cluster.c and src/exfatclone.c: which sectors of an exFAT volume are saved. */
module ExfatUsed {
  import opened Arithmetic
  import opened WordBitmap

  const FIRST_DATA: nat := 2

  /** Where the clusters are: `heap` is the sector of the first one, `spc` their size in sectors;
      the walk looks at the clusters below `end`. */
  datatype Heap = Heap(heap: nat, spc: nat, end: nat) {
    predicate Valid() {
      0 < heap && 0 < spc && FIRST_DATA <= end
    }

    /** `c2s` */
    function C2s(c: nat): nat
      requires FIRST_DATA <= c
    {
      heap + (c - FIRST_DATA) * spc
    }

    /** `s2c` */
    function S2c(s: nat): nat
      requires Valid() && heap <= s
    {
      DivNonNegative(s - heap, spc);
      (s - heap) / spc + FIRST_DATA
    }
  }

  /** The clusters follow one another from the beginning of the heap on. */
  lemma ClustersInRow(h: Heap, c: nat)
    requires FIRST_DATA <= c
    ensures h.C2s(2) == h.heap && h.C2s(c + 1) == h.C2s(c) + h.spc
  {
    MulStep(c - FIRST_DATA, h.spc);
  }

  /** Any sector of a cluster leads back to it. */
  lemma S2cOfCluster(h: Heap, c: nat, k: nat)
    requires h.Valid() && FIRST_DATA <= c && k < h.spc
    ensures h.heap <= h.C2s(c) + k && h.S2c(h.C2s(c) + k) == c
  {
    MulMonotone(0, c - FIRST_DATA, h.spc);
    DivUnique((c - FIRST_DATA) * h.spc + k, h.spc, c - FIRST_DATA, k);
  }

  /** The bitmap has a bit for every cluster the walk looks at. */
  predicate Fits(flags: seq<bool>, end: nat) {
    end <= |flags| + FIRST_DATA
  }

  predicate Used(flags: seq<bool>, c: nat) {
    FIRST_DATA <= c < FIRST_DATA + |flags| && flags[c - FIRST_DATA]
  }

  /** `find_used_clusters`: the next run of used clusters after `last`. A run that reaches the end
      of the volume is given one cluster too many. */
  method FindUsedClusters(flags: seq<bool>, end: nat, last: nat) returns (found: bool, a: nat, b: nat)
    requires Fits(flags, end) && 1 <= last
    ensures found <==> exists c :: last < c < end && Used(flags, c)
    ensures found ==> last < a <= b <= end && a < end && Used(flags, a) && forall c :: last < c < a ==> !Used(flags, c)
    ensures found ==> forall c :: a <= c <= b && c < end ==> Used(flags, c)
    ensures found ==> (b < end ==> b + 1 < end && !Used(flags, b + 1))
  {
    a := last + 1;
    while a < end
      invariant last < a && (a <= end || a == last + 1)
      invariant forall c :: last < c < a ==> !Used(flags, c)
    {
      if flags[a - FIRST_DATA] {
        break;
      }
      a := a + 1;
    }
    if end <= a {
      return false, a, last;
    }
    assert Used(flags, a);
    b := a;
    while b < end
      invariant a <= b <= end
      invariant forall c :: a <= c < b ==> Used(flags, c)
    {
      if !flags[b - FIRST_DATA] {
        b := b - 1;
        break;
      }
      b := b + 1;
    }
    found := true;
  }

  /** The clusters the walk gives: the used ones and, behind a used last one, one that does not exist. */
  ghost predicate Given(flags: seq<bool>, end: nat, c: nat) {
    (c < end && Used(flags, c)) || (c == end && FIRST_DATA < end && Used(flags, end - 1))
  }

  ghost predicate AnyUsed(flags: seq<bool>, end: nat) {
    exists c :: FIRST_DATA <= c < end && Used(flags, c)
  }

  /** The sectors that are saved: once a cluster is in use, all that lies before the first such
      cluster, and the clusters given. */
  ghost predicate Saved(h: Heap, flags: seq<bool>, s: nat)
    requires h.Valid()
  {
    && AnyUsed(flags, h.end)
    && (s < h.heap || Given(flags, h.end, h.S2c(s)) || forall c: nat :: c <= h.S2c(s) ==> !Used(flags, c))
  }

  /** The cluster of a sector. */
  lemma ClusterOf(h: Heap, s: nat, c: nat)
    requires h.Valid() && FIRST_DATA <= c
    ensures h.C2s(c) <= s ==> h.heap <= s && c <= h.S2c(s)
    ensures s < h.C2s(c) ==> s < h.heap || h.S2c(s) < c
  {
    MulMonotone(0, c - FIRST_DATA, h.spc);
    if h.heap <= s {
      var q, r := (s - h.heap) / h.spc, (s - h.heap) % h.spc;
      DivNonNegative(s - h.heap, h.spc);
      MulStep(q, h.spc);
      if h.C2s(c) <= s && q < c - FIRST_DATA {
        MulMonotone(q + 1, c - FIRST_DATA, h.spc);
      }
      if s < h.C2s(c) && c - FIRST_DATA <= q {
        MulMonotone(c - FIRST_DATA, q, h.spc);
      }
    }
  }

  /** The sector after a cluster starts the next one. */
  lemma NextCluster(h: Heap, c: nat)
    requires FIRST_DATA <= c
    ensures h.C2s(c + 1) == h.C2s(c) + h.spc
  {
    MulStep(c - FIRST_DATA, h.spc);
  }

  /** How far the walk got: `last` is the last cluster given, and it or the one before it is in use. */
  ghost predicate Reached(flags: seq<bool>, end: nat, last: nat) {
    && (last == FIRST_DATA - 1 || (FIRST_DATA <= last <= end && Given(flags, end, last)))
    && (FIRST_DATA <= last < end ==> last + 1 < end)
  }

  /** Between what was given and the next run nothing is saved. */
  lemma NothingBetween(h: Heap, flags: seq<bool>, last: nat, a: nat, s: nat)
    requires h.Valid() && Fits(flags, h.end) && FIRST_DATA <= last && Reached(flags, h.end, last) && last < a <= h.end
    requires forall c :: last < c < a ==> !Used(flags, c)
    requires h.C2s(last + 1) <= s < h.C2s(a)
    ensures !Saved(h, flags, s)
  {
    ClusterOf(h, s, last + 1);
    ClusterOf(h, s, a);
    assert Used(flags, last);
  }

  /** A run is saved, and the first one with all that lies before it. */
  lemma RunSaved(h: Heap, flags: seq<bool>, last: nat, a: nat, b: nat, s: nat)
    requires h.Valid() && Fits(flags, h.end) && FIRST_DATA <= a <= b <= h.end && a < h.end && last < a
    requires forall c :: last < c < a ==> !Used(flags, c)
    requires forall c :: a <= c <= b && c < h.end ==> Used(flags, c)
    requires s < h.C2s(b + 1) && (h.C2s(a) <= s || last == FIRST_DATA - 1)
    ensures Saved(h, flags, s)
  {
    assert Used(flags, a);
    ClusterOf(h, s, a);
    ClusterOf(h, s, b + 1);
    if h.heap <= s && a <= h.S2c(s) {
      assert h.S2c(s) == h.end ==> Used(flags, h.end - 1);
    }
  }

  /** Behind the last run nothing is saved. */
  lemma NothingBehind(h: Heap, flags: seq<bool>, last: nat, s: nat)
    requires h.Valid() && Fits(flags, h.end) && Reached(flags, h.end, last)
    requires forall c :: last < c < h.end ==> !Used(flags, c)
    requires FIRST_DATA <= last ==> h.C2s(last + 1) <= s
    ensures !Saved(h, flags, s)
  {
    if FIRST_DATA <= last {
      ClusterOf(h, s, last + 1);
      assert Used(flags, last) || Used(flags, h.end - 1);
    }
  }

  /** The bitmap as far as sector `edge`. */
  ghost predicate Marked(h: Heap, flags: seq<bool>, bits: seq<bool>, total: nat, edge: nat)
    requires h.Valid()
  {
    && edge <= total <= |bits|
    && (forall s :: 0 <= s < edge ==> (bits[s] <==> Saved(h, flags, s)))
    && forall s :: edge <= s < total ==> !bits[s]
  }

  /** The range `a` to `b` of `exfat_find_used_sectors`, marked sector by sector; a sector outside
      the volume ends the program (`false`). */
  method MarkRange(h: Heap, ghost flags: seq<bool>, bitmap: array<bv64>, total: nat, a: nat, b: nat, ghost edge: nat)
    returns (ok: bool)
    requires h.Valid() && total <= 64 * bitmap.Length && edge <= a <= b
    requires Marked(h, flags, Flags(bitmap[..]), total, edge)
    requires forall s :: edge <= s < a ==> !Saved(h, flags, s)
    requires forall s :: a <= s <= b ==> Saved(h, flags, s)
    modifies bitmap
    ensures ok <==> b < total
    ensures ok ==> Marked(h, flags, Flags(bitmap[..]), total, b + 1)
  {
    hide Flags, Saved;
    var block := a;
    while block <= b
      invariant a <= block <= b + 1 && (block == a || block <= total)
      invariant forall s :: a <= s < block && s < total ==> Flags(bitmap[..])[s]
      invariant forall s :: 0 <= s < total && !(a <= s < block) ==>
                  Flags(bitmap[..])[s] == old(Flags(bitmap[..]))[s]
    {
      if total <= block {
        return false;
      }
      SetBit(block, bitmap);
      block := block + 1;
    }
    ok := true;
  }

  /** `read_bitmap`, with `exfat_find_used_sectors` in its loop. */
  method ReadBitmap(h: Heap, flags: seq<bool>, bitmap: array<bv64>, total: nat) returns (ok: bool)
    requires h.Valid() && Fits(flags, h.end) && total <= 64 * bitmap.Length
    modifies bitmap
    ensures ok <==> forall s: nat :: Saved(h, flags, s) ==> s < total
    ensures ok ==> forall s :: 0 <= s < total ==> (Flags(bitmap[..])[s] <==> Saved(h, flags, s))
  {
    hide Flags, Saved, Given, Reached, Heap.C2s, Heap.S2c;
    ClearAll(bitmap);
    var a, b := 0, 0;
    ghost var last: nat, edge: nat := FIRST_DATA - 1, 0;
    StartOfWalk(h, flags);
    while true
      invariant Reached(flags, h.end, last) && FIRST_DATA - 1 <= last <= h.end
      invariant Marked(h, flags, Flags(bitmap[..]), total, edge)
      invariant if last == FIRST_DATA - 1 then a == b == edge == 0
                else 0 < b && b + 1 == edge == h.C2s(last + 1) && b == h.C2s(last) + (h.spc - 1)
      decreases h.end - last
    {
      var cb := FIRST_DATA - 1;
      if !(a == 0 && b == 0) {
        S2cOfCluster(h, last, h.spc - 1);
        cb := h.S2c(b);
      }
      assert cb == last;
      var found, ca, cb' := FindUsedClusters(flags, h.end, cb);
      if !found {
        break;
      }
      NextRange(h, flags, last, ca, cb');
      if a != 0 || b != 0 {
        a := h.C2s(ca);
      }
      b := h.C2s(cb') + (h.spc - 1);
      ok := MarkRange(h, flags, bitmap, total, a, b, edge);
      if !ok {
        assert Saved(h, flags, b);
        return;
      }
      last, edge := cb', b + 1;
    }
    forall s: nat | edge <= s
      ensures !Saved(h, flags, s)
    {
      NothingBehind(h, flags, last, s);
    }
    ok := true;
  }

  lemma StartOfWalk(h: Heap, flags: seq<bool>)
    requires h.Valid()
    ensures Reached(flags, h.end, FIRST_DATA - 1)
  {
  }

  /** What one step of the walk adds. */
  lemma NextRange(h: Heap, flags: seq<bool>, last: nat, a: nat, b: nat)
    requires h.Valid() && Fits(flags, h.end) && Reached(flags, h.end, last) && FIRST_DATA - 1 <= last <= h.end
    requires last < a <= b <= h.end && a < h.end && Used(flags, a) && forall c :: last < c < a ==> !Used(flags, c)
    requires forall c :: a <= c <= b && c < h.end ==> Used(flags, c)
    requires b < h.end ==> b + 1 < h.end && !Used(flags, b + 1)
    ensures Reached(flags, h.end, b)
    ensures h.C2s(b + 1) == h.C2s(b) + h.spc && h.C2s(last + 1) <= h.C2s(a) <= h.C2s(b)
    ensures 0 < h.C2s(a)
    ensures FIRST_DATA <= last ==> forall s :: h.C2s(last + 1) <= s < h.C2s(a) ==> !Saved(h, flags, s)
    ensures forall s: nat :: s < h.C2s(b + 1) && (h.C2s(a) <= s || last == FIRST_DATA - 1) ==> Saved(h, flags, s)
  {
    hide Saved, Heap.S2c;
    assert Reached(flags, h.end, b) by {
      assert b == h.end ==> Used(flags, h.end - 1);
    }
    NextCluster(h, b);
    MulMonotone(0, last - 1, h.spc);
    MulMonotone(last - 1, a - FIRST_DATA, h.spc);
    MulMonotone(a - FIRST_DATA, b - FIRST_DATA, h.spc);
    forall s | h.C2s(last + 1) <= s < h.C2s(a) && FIRST_DATA <= last
      ensures !Saved(h, flags, s)
    {
      NothingBetween(h, flags, last, a, s);
    }
    forall s: nat | s < h.C2s(b + 1) && (h.C2s(a) <= s || last == FIRST_DATA - 1)
      ensures Saved(h, flags, s)
    {
      RunSaved(h, flags, last, a, b, s);
    }
  }

  /** On a volume that holds its clusters, the bitmap can be built if and only if the last cluster
      is free or there is room for one more behind it. */
  lemma BuiltIff(h: Heap, flags: seq<bool>, total: nat)
    requires h.Valid() && Fits(flags, h.end) && h.C2s(h.end) <= total
    ensures (forall s: nat :: Saved(h, flags, s) ==> s < total) <==>
              (FIRST_DATA < h.end && Used(flags, h.end - 1) ==> h.C2s(h.end + 1) <= total)
  {
    hide Heap.S2c;
    NextCluster(h, h.end);
    forall s: nat | Saved(h, flags, s) && h.C2s(h.end) <= s
      ensures FIRST_DATA < h.end && Used(flags, h.end - 1) && s < h.C2s(h.end + 1)
    {
      ClusterOf(h, s, h.end);
      ClusterOf(h, s, h.end + 1);
    }
    if FIRST_DATA < h.end && Used(flags, h.end - 1) {
      S2cOfCluster(h, h.end, h.spc - 1);
      assert Given(flags, h.end, h.end);
      assert Saved(h, flags, h.C2s(h.end) + (h.spc - 1));
    }
  }

  /** A sector of a used cluster is saved exactly if the walk gives the cluster. */
  lemma UsedSaved(h: Heap, flags: seq<bool>, c: nat, k: nat)
    requires h.Valid() && Used(flags, c) && k < h.spc
    ensures Saved(h, flags, h.C2s(c) + k) <==> Given(flags, h.end, c)
  {
    hide Heap.C2s, Heap.S2c;
    S2cOfCluster(h, c, k);
    if Given(flags, h.end, c) {
      assert Used(flags, if c == h.end then h.end - 1 else c);
    }
  }

  // ----- two counts of clusters

  // Section 3.1.9 of the exFAT specification numbers the clusters from 2 to ClusterCount + 1, and the bitmap has
  // ClusterCount bits. src/exfat/node.c takes two bits less for the bitmap. The walk looks below ClusterCount.

  /** By the count of the specification, every used cluster is given if and only if the last one is free and the
      last but one is free or follows a used one. */
  lemma AllGivenIff(h: Heap, flags: seq<bool>)
    requires h.Valid() && h.end == |flags|
    ensures (forall c: nat :: Used(flags, c) ==> Given(flags, h.end, c)) <==>
              !Used(flags, h.end + 1) && (Used(flags, h.end) ==> Used(flags, h.end - 1))
  {
    if Used(flags, h.end + 1) {
      assert !Given(flags, h.end, h.end + 1);
    }
    if Used(flags, h.end) && !Used(flags, h.end - 1) {
      assert !Given(flags, h.end, h.end);
    }
  }

  /** Three clusters, all in use: the last one, number 4, is not given. */
  lemma LostExample()
    ensures Used([true, true, true], 4) && !Given([true, true, true], 3, 4)
  {
  }

  /** A volume that holds all its clusters by that count has room for what is given. */
  lemma AlwaysBuilt(h: Heap, flags: seq<bool>, total: nat, s: nat)
    requires h.Valid() && h.end == |flags| && h.C2s(FIRST_DATA + |flags|) <= total && Saved(h, flags, s)
    ensures s < total
  {
    hide Heap.S2c;
    NextCluster(h, h.end);
    NextCluster(h, h.end + 1);
    BuiltIff(h, flags, total);
  }

  /** By the count of the source, the walk gives exactly the used clusters if and only if the last one is free. */
  lemma ExactIffLastFree(h: Heap, flags: seq<bool>)
    requires h.Valid() && h.end == |flags| + FIRST_DATA
    ensures (forall c: nat :: Given(flags, h.end, c) <==> Used(flags, c)) <==> !Used(flags, h.end - 1)
  {
    if Used(flags, h.end - 1) {
      assert Given(flags, h.end, h.end) && !Used(flags, h.end);
    }
  }

  /** By that count, a volume of one cluster, in use: the walk also gives cluster 3. */
  lemma OverrunExample()
    ensures Given([true], 3, 3) && !Used([true], 3)
  {
  }
}
