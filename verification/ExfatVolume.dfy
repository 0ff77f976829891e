/** src/exfat/cluster.c: allocating, linking and freeing the clusters of a file. */
module ExfatVolume {
  import opened Sequences
  import opened WordBitmap
  import opened ExfatChain

  const ALL_ONES: bv64 := 0xffff_ffff_ffff_ffff

  /** All flags from `from` up to `to` are set. */
  ghost predicate AllSet(flags: seq<bool>, from: nat, to: nat) {
    forall c :: from <= c < to && c < |flags| ==> flags[c]
  }

  lemma WordFull(words: seq<bv64>, i: nat)
    requires i < |words| && words[i] == ALL_ONES
    ensures AllSet(Flags(words), 64 * i, 64 * (i + 1))
  {
    hide Bit;
    forall c | 64 * i <= c < 64 * (i + 1)
      ensures Flags(words)[c]
    {
      AllOnes(words[i], c % 64);
      assert c / 64 == i;
    }
  }

  /** `find_bit_and_set`: takes the first clear bit in the range, if there is one. */
  method FindBitAndSet(bitmap: array<bv64>, start: nat, end: nat) returns (r: nat)
    requires start <= end <= 64 * bitmap.Length && end + FIRST_DATA <= LAST_DATA + 1
    modifies bitmap
    ensures var was, now := old(Flags(bitmap[..])), Flags(bitmap[..]);
            if r == END then now == was && AllSet(was, start, end)
            else FIRST_DATA + start <= r < FIRST_DATA + end
                 && !was[r - FIRST_DATA] && AllSet(was, start, r - FIRST_DATA) && now == was[r - FIRST_DATA := true]
  {
    hide Bit, Flags;
    ghost var was := Flags(bitmap[..]);
    var i, endIndex := start / 64, (end + 63) / 64;
    while i < endIndex
      invariant start / 64 <= i <= endIndex
      invariant bitmap[..] == old(bitmap[..])
      invariant AllSet(was, start, if 64 * i < end then 64 * i else end)
    {
      if bitmap[i] == ALL_ONES {
        WordFull(bitmap[..], i);
      } else {
        var c := if 64 * i < start then start else 64 * i;
        var stop := if 64 * (i + 1) < end then 64 * (i + 1) else end;
        while c < stop
          invariant start <= c <= stop && 64 * i <= c
          invariant bitmap[..] == old(bitmap[..])
          invariant AllSet(was, start, c)
        {
          assert c / 64 == i && was[c] == WordBitmap.At(bitmap[..], c);
          if !Bit(bitmap[c / 64], c % 64) {
            SetBit(c, bitmap);
            return c + FIRST_DATA;
          }
          c := c + 1;
        }
      }
      i := i + 1;
    }
    r := END;
  }

  /** What the first fit is, in terms of the two ranges searched. */
  lemma SearchedFrom(flags: seq<bool>, size: nat, h: nat, r: nat)
    requires size <= |flags| && h <= size && FIRST_DATA + h <= r < FIRST_DATA + size
    requires !flags[r - FIRST_DATA] && AllSet(flags, h, r - FIRST_DATA)
    ensures FirstFit(FreeSet(flags, size), FIRST_DATA + h, r)
  {
  }

  lemma SearchedAround(flags: seq<bool>, size: nat, h: nat, r: nat)
    requires size <= |flags| && h <= size && FIRST_DATA <= r < FIRST_DATA + h
    requires AllSet(flags, h, size) && !flags[r - FIRST_DATA] && AllSet(flags, 0, r - FIRST_DATA)
    ensures FirstFit(FreeSet(flags, size), FIRST_DATA + h, r)
  {
  }

  lemma NothingFree(flags: seq<bool>, size: nat, h: nat)
    requires size <= |flags| && h <= size && AllSet(flags, h, size) && AllSet(flags, 0, h)
    ensures FreeSet(flags, size) == {}
  {
  }

  /** `Failed` is an I/O error, and `Stopped` the end of the program by `exfat_bug`. */
  datatype Status = Ok | NoSpace | Failed | Stopped

  /** The part of `struct exfat_node` that describes a file's contents. */
  class FileNode {
    var start: nat
    var contiguous: bool
    var fptrIndex: nat
    var fptrCluster: nat
    var size: nat
    var dirty: bool

    /** `allocate_node`: everything is zero. */
    constructor ()
      ensures start == FREE == 0 && !contiguous && fptrIndex == 0 && fptrCluster == FREE && size == 0 && !dirty
    {
      start, contiguous, fptrIndex, fptrCluster, size, dirty := FREE, false, 0, FREE, 0, false;
    }

    /** The node's clusters are `cl`. */
    ghost predicate Names(fat: seq<nat>, cl: seq<nat>)
      reads this
    {
      Linked(fat, contiguous, cl) && start == if cl == [] then FREE else cl[0]
    }

    /** The same, and the remembered position is one of them. */
    ghost predicate Holds(fat: seq<nat>, cl: seq<nat>)
      reads this
    {
      && Linked(fat, contiguous, cl)
      && (cl == [] ==> start == FREE && fptrIndex == 0 && fptrCluster == FREE)
      && (cl != [] ==> start == cl[0] && fptrIndex < |cl| && fptrCluster == cl[fptrIndex])
    }
  }

  /** The FAT and the clusters are those of a volume with `size` clusters of `cs` bytes. */
  ghost predicate Shaped(fat: seq<nat>, data: seq<seq<byte>>, size: nat, cs: nat) {
    && |fat| == FIRST_DATA + size && |data| == FIRST_DATA + size
    && forall c :: 0 <= c < |data| ==> |data[c]| == cs
  }

  class Volume {
    const size: nat
    const clusterSize: nat
    const chunk: array<bv64>
    var dirty: bool
    var fat: seq<nat>
    var data: seq<seq<byte>>

    ghost predicate Valid()
      reads this
    {
      && size <= 64 * chunk.Length && size + FIRST_DATA <= LAST_DATA + 1
      && 0 < clusterSize && Shaped(fat, data, size, clusterSize)
    }

    ghost function Free(): (s: set<nat>)
      requires Valid()
      reads this, chunk
      ensures s <= Clusters(size)
    {
      FreeSet(Flags(chunk[..]), size)
    }

    /** `node` holds `cl`, whose clusters are all in use. */
    ghost predicate Owns(node: FileNode, cl: seq<nat>)
      requires Valid()
      reads this, chunk, node
    {
      node.Holds(fat, cl) && Listed(cl, size) && Elems(cl) !! Free()
    }

    /** A change of the bitmap in memory is noted, to be written back later. */
    ghost predicate Noted(was: bool, free: set<nat>)
      requires Valid()
      reads this, chunk
    {
      (was ==> dirty) && (!dirty ==> Free() == free)
    }

    constructor (size: nat, clusterSize: nat, chunk: array<bv64>, fat: seq<nat>, data: seq<seq<byte>>)
      requires size <= 64 * chunk.Length && size + FIRST_DATA <= LAST_DATA + 1 && 0 < clusterSize
      requires |fat| == FIRST_DATA + size && |data| == FIRST_DATA + size
      requires forall c :: 0 <= c < |data| ==> |data[c]| == clusterSize
      ensures Valid() && this.chunk == chunk && this.size == size && this.clusterSize == clusterSize
      ensures this.fat == fat && this.data == data && !dirty
    {
      this.size, this.clusterSize, this.chunk, this.fat, this.data := size, clusterSize, chunk, fat, data;
      dirty := false;
    }

    /** `allocate_cluster` */
    method Allocate(hint: nat) returns (r: nat)
      requires Valid() && hint < WRAP
      modifies this`dirty, chunk
      ensures dirty == (old(dirty) || r != END)
      ensures r == END ==> old(Free()) == {} == Free()
      ensures r != END ==> FirstFit(old(Free()), FIRST_DATA + SearchStart(hint, size), r) && Free() == old(Free()) - {r}
    {
      hide Flags, FirstFit, AllSet, FreeSet;
      var h := SearchStart(hint, size);
      ghost var was := Flags(chunk[..]);
      r := FindBitAndSet(chunk, h, size);
      if r == END {
        r := FindBitAndSet(chunk, 0, h);
        if r == END {
          NothingFree(was, size, h);
          return;
        }
        SearchedAround(was, size, h, r);
      } else {
        SearchedFrom(was, size, h, r);
      }
      FlagCleared(was, size, r);
      dirty := true;
    }

    /** `free_cluster` */
    method FreeCluster(c: nat)
      requires Valid() && InVolume(c, size)
      modifies this`dirty, chunk
      ensures Free() == old(Free()) + {c} && dirty
    {
      hide Flags, FreeSet;
      FlagCleared(Flags(chunk[..]), size, c);
      ClearBit(c - FIRST_DATA, chunk);
      dirty := true;
    }

    /** `set_next_cluster` */
    method SetNext(contiguous: bool, current: nat, next: nat)
      requires Valid() && InVolume(current, size)
      modifies this`fat
      ensures Valid() && fat == if contiguous then old(fat) else old(fat)[current := next]
    {
      if !contiguous {
        fat := fat[current := next];
      }
    }

    /** `exfat_advance_cluster`: wherever the last seek ended, the result is that of a fresh walk. */
    method Advance(node: FileNode, count: nat, ghost cl: seq<nat>) returns (r: nat)
      requires Valid() && node.Holds(fat, cl) && Listed(cl, size) && count < |cl|
      modifies node`fptrIndex, node`fptrCluster
      ensures node.Holds(fat, cl) && node.fptrIndex == count
      ensures r == node.fptrCluster == cl[count] == Walk(fat, node.contiguous, node.start, count)
    {
      if count < node.fptrIndex {
        node.fptrIndex := 0;
        node.fptrCluster := node.start;
      }
      var i := node.fptrIndex;
      while i < count
        invariant node.fptrIndex <= i <= count && node.fptrCluster == cl[i]
      {
        assert InVolume(cl[i], size) && InVolume(cl[i + 1], size);
        node.fptrCluster := Next(fat, node.contiguous, node.fptrCluster);
        if Invalid(node.fptrCluster) {
          break;
        }
        i := i + 1;
      }
      node.fptrIndex := count;
      r := node.fptrCluster;
      WalkIsList(fat, node.contiguous, cl, count);
    }

    /** `make_noncontiguous`: writes the chain that the consecutive numbers stood for. */
    method MakeNoncontiguous(first: nat, last: nat, ghost cl: seq<nat>)
      requires Valid() && Listed(cl, size) && cl != [] && Linked(fat, true, cl) && first == cl[0]
      requires last == cl[|cl| - 1]
      modifies this`fat
      ensures Valid() && Linked(fat, false, cl)
      ensures forall c :: 0 <= c < |fat| && c !in cl ==> fat[c] == old(fat)[c]
    {
      var c := first;
      while c < last
        invariant Valid() && first <= c <= last
        invariant forall i :: 0 <= i < c - first ==> fat[cl[i]] == cl[i + 1]
        invariant forall d :: 0 <= d < |fat| && d !in cl ==> fat[d] == old(fat)[d]
      {
        assert c == cl[c - first] && c + 1 == cl[c - first + 1];
        assert InVolume(cl[c - first], size);
        SetNext(false, c, c + 1);
        c := c + 1;
      }
    }

    /** The file is one contiguous cluster and only the cluster just below it is free. */
    ghost predicate OnlyBelow(node: FileNode, cl: seq<nat>)
      requires Valid()
      reads this, chunk, node
    {
      node.contiguous && |cl| == 1 && OneBelow(Free(), cl[0])
    }

    /** Makes `next` follow the last cluster, giving up contiguity unless `next` is just below. */
    method LinkNext(node: FileNode, previous: nat, next: nat, ghost cl: seq<nat>)
      requires Valid() && node.Holds(fat, cl) && Listed(cl, size) && cl != [] && previous == cl[|cl| - 1]
      modifies this`fat, node`contiguous, node`dirty
      ensures Valid()
      ensures forall c :: 0 <= c < |fat| && c !in cl ==> fat[c] == old(fat)[c]
      ensures if next + 1 == previous && old(node.contiguous) then node.contiguous && fat == old(fat)
              else !node.contiguous && node.Holds(fat, cl + [next])
      ensures node.dirty == (old(node.dirty) || (old(node.contiguous) && !node.contiguous))
    {
      hide Linked, Listed;
      assert InVolume(previous, size) by {
        LastListed(cl, size);
      }
      if next != previous - 1 && node.contiguous {
        MakeNoncontiguous(node.start, previous, cl);
        node.contiguous := false;
        node.dirty := true;
      }
      LinkedAppend(fat, cl, size, next);
      SetNext(node.contiguous, previous, next);
    }

    /** One turn of the loop in `grow_file`. The new cluster continues the file's list, except when
        the file was one contiguous cluster and the cluster just below it was the only free one: then
        the file is still taken for contiguous, and its next cluster for the one above. */
    method Extend(node: FileNode, previous: nat, ghost cl: seq<nat>) returns (next: nat)
      requires Valid() && Owns(node, cl) && cl != [] && previous == cl[|cl| - 1]
      modifies this`dirty, this`fat, chunk, node`contiguous, node`dirty
      ensures Valid()
      ensures next == END <==> old(Free()) == {}
      ensures next == END ==>
                Owns(node, cl) && fat == old(fat) && node.contiguous == old(node.contiguous) && Free() == {}
      ensures Noted(old(dirty), old(Free())) &&
                node.dirty == (old(node.dirty) || (old(node.contiguous) && !node.contiguous))
      ensures next != END ==> next in old(Free()) && Free() == old(Free()) - {next} && Listed(cl + [next], size)
      ensures next != END && !old(OnlyBelow(node, cl)) ==> Owns(node, cl + [next]) && !node.contiguous
      ensures next != END && old(OnlyBelow(node, cl)) ==>
                next + 1 == previous && node.contiguous && fat == old(fat) && !Linked(fat, node.contiguous, cl + [next])
      ensures forall c :: 0 <= c < |fat| && c !in cl ==> fat[c] == old(fat)[c]
    {
      hide Linked, Listed, FirstFit, FreeSet, Flags, Elems;
      ghost var free := Free();
      LastListed(cl, size);
      ElemsHas(cl, free);
      next := Allocate(previous + 1);
      FitFree(free, size, FIRST_DATA + SearchStart(previous + 1, size), next);
      if Invalid(next) {
        return;
      }
      BelowIsLast(free, size, previous, next);
      SecondBelow(fat, node.contiguous, cl, next);
      ListedAppend(cl, size, next);
      ElemsAppend(cl, next);
      LinkNext(node, previous, next, cl);
    }

    /** `shrink_file`: the list loses its last `difference` clusters, which become free. */
    method Shrink(node: FileNode, current: nat, difference: nat, ghost cl: seq<nat>) returns (ghost kept: seq<nat>)
      requires Valid() && Owns(node, cl) && current == |cl| && 0 < difference <= current
      modifies this`dirty, this`fat, chunk, node`start, node`fptrIndex, node`fptrCluster, node`dirty
      ensures Valid() && kept == cl[..current - difference]
      ensures Owns(node, kept) && Ended(fat, node.contiguous, kept)
      ensures Free() == old(Free()) + Elems(cl[current - difference..]) && dirty
      ensures !node.contiguous ==> Released(fat, cl, current - difference, current)
      ensures node.fptrIndex == 0 && node.fptrCluster == node.start
      ensures node.dirty == (old(node.dirty) || difference == current)
      ensures forall c :: 0 <= c < |fat| && c !in cl ==> fat[c] == old(fat)[c]
    {
      hide Linked, Listed, FreeSet, Flags, Elems, Ended, Released;
      ghost var n := current - difference;
      kept := cl[..n];
      ListedPrefix(cl, size, n);
      PartsApart(cl, size, n);
      ElemsSplit(cl, n);
      var previous := Crop(node, current, difference, cl);
      FreeTail(node, previous, difference, cl, n);
    }

    /** Cuts the list after the clusters to keep. */
    method Crop(node: FileNode, current: nat, difference: nat, ghost cl: seq<nat>) returns (previous: nat)
      requires Valid() && node.Holds(fat, cl) && Listed(cl, size) && current == |cl| && 0 < difference <= current
      modifies this`fat, node`start, node`fptrIndex, node`fptrCluster, node`dirty
      ensures Valid() && previous == cl[current - difference]
      ensures node.Holds(fat, cl[..current - difference]) && Ended(fat, node.contiguous, cl[..current - difference])
      ensures Linked(fat, node.contiguous, cl[current - difference..])
      ensures node.fptrIndex == 0 && node.fptrCluster == node.start
      ensures node.dirty == (old(node.dirty) || difference == current)
      ensures forall c :: 0 <= c < |fat| && c !in cl ==> fat[c] == old(fat)[c]
    {
      hide Linked, Listed, Ended;
      ghost var n := current - difference;
      InList(cl, size);
      if difference < current {
        var last := Advance(node, current - difference - 1, cl);
        NextInList(fat, node.contiguous, cl, n - 1);
        previous := Next(fat, node.contiguous, last);
        Cut(fat, node.contiguous, cl, size, n);
        SetNext(node.contiguous, last, END);
      } else {
        Uncut(fat, node.contiguous, cl);
        previous := node.start;
        node.start := FREE;
        node.dirty := true;
      }
      node.fptrIndex := 0;
      node.fptrCluster := node.start;
    }

    /** The loop of `shrink_file` that frees the clusters from place `n` of the list on. */
    method FreeTail(node: FileNode, first: nat, difference: nat, ghost cl: seq<nat>, ghost n: nat)
      requires Valid() && Listed(cl, size) && n + difference == |cl| && 0 < difference && first == cl[n]
      requires Linked(fat, node.contiguous, cl[n..])
      requires node.Holds(fat, cl[..n]) && Ended(fat, node.contiguous, cl[..n])
      modifies this`dirty, this`fat, chunk
      ensures Valid() && Free() == old(Free()) + Elems(cl[n..]) && dirty
      ensures !node.contiguous ==> Released(fat, cl, n, |cl|)
      ensures node.Holds(fat, cl[..n]) && Ended(fat, node.contiguous, cl[..n])
      ensures forall c :: 0 <= c < |fat| && c !in cl ==> fat[c] == old(fat)[c]
    {
      hide Linked, Listed, Ended, FreeSet, Flags, Elems, Released, FileNode.Holds;
      var left: nat, previous := difference, first;
      ghost var i: nat := n;
      NoElems(cl, n);
      ReleasedNone(fat, cl, n);
      while 0 < left
        invariant Valid() && i + left == |cl| && n <= i
        invariant 0 < left ==> previous == cl[i]
        invariant Linked(fat, node.contiguous, cl[i..])
        invariant node.Holds(fat, cl[..n]) && Ended(fat, node.contiguous, cl[..n])
        invariant Free() == old(Free()) + Elems(cl[n..i]) && (n < i ==> dirty)
        invariant !node.contiguous ==> Released(fat, cl, n, i)
        invariant forall c :: 0 <= c < |fat| && c !in cl ==> fat[c] == old(fat)[c]
      {
        ElemsNext(cl, n, i);
        previous := FreeNext(node, previous, cl, n, i);
        i, left := i + 1, left - 1;
      }
      assert cl[n..|cl|] == cl[n..];
    }

    /** One turn of that loop. */
    method FreeNext(node: FileNode, previous: nat, ghost cl: seq<nat>, ghost n: nat, ghost i: nat) returns (next: nat)
      requires Valid() && Listed(cl, size) && n <= i < |cl| && previous == cl[i]
      requires Linked(fat, node.contiguous, cl[i..])
      requires node.Holds(fat, cl[..n]) && Ended(fat, node.contiguous, cl[..n])
      requires !node.contiguous ==> Released(fat, cl, n, i)
      modifies this`dirty, this`fat, chunk
      ensures Valid() && Free() == old(Free()) + {cl[i]} && dirty && (i + 1 < |cl| ==> next == cl[i + 1])
      ensures Linked(fat, node.contiguous, cl[i + 1..])
      ensures node.Holds(fat, cl[..n]) && Ended(fat, node.contiguous, cl[..n])
      ensures !node.contiguous ==> Released(fat, cl, n, i + 1)
      ensures forall c :: 0 <= c < |fat| && c !in cl ==> fat[c] == old(fat)[c]
    {
      hide Linked, Listed, Ended, FreeSet, Flags, Released;
      TailStep(fat, node.contiguous, cl, size, n, i);
      if !node.contiguous {
        ReleasedMore(fat, cl, size, n, i);
      }
      next := Next(fat, node.contiguous, previous);
      SetNext(node.contiguous, previous, FREE);
      FreeCluster(previous);
    }

    /** `grow_file` in the case that `Grow` excludes. Growing by one cluster takes the only free one, but the file's
        second cluster is now taken to be the one above its first. Growing by more gives up, and then
        frees the cluster above in place of the one just taken; if there is none, the attempt to free it ends the
        program, or fails for want of such a number (`stopped`). */
    method GrowBelow(node: FileNode, difference: nat, ghost cl: seq<nat>)
      returns (rc: Status, next: nat, stopped: bool)
      requires Valid() && Owns(node, cl) && OnlyBelow(node, cl) && 0 < difference
      modifies this`dirty, this`fat, chunk, node`contiguous, node`dirty, node`fptrIndex, node`fptrCluster
      ensures Valid() && next + 1 == cl[0] && old(Free()) == {next} && node.contiguous && fat == old(fat)
      ensures rc == if difference == 1 then Ok else NoSpace
      ensures rc == Ok ==> Free() == {} && !Linked(fat, node.contiguous, cl + [next])
      ensures rc == Ok ==> Walk(fat, node.contiguous, node.start, 1) == cl[0] + 1
      ensures stopped <==> 1 < difference && !InVolume(cl[0] + 1, size)
      ensures rc == NoSpace ==> Free() == if stopped then {} else {cl[0] + 1}
    {
      hide Listed, FreeSet, Flags, Elems;
      LastListed(cl, size);
      assert cl[0] - 1 in Free();
      var previous := Advance(node, 0, cl);
      next := Extend(node, previous, cl);
      LastListed(cl + [next], size);
      if 1 < difference {
        var none := Allocate(next + 1);
        assert none == END;
        var last := Advance(node, 0, cl);
        previous := Next(fat, node.contiguous, last);
        SetNext(node.contiguous, last, END);
        node.fptrIndex := 0;
        node.fptrCluster := node.start;
        if !InVolume(previous, size) {
          return NoSpace, next, true;
        }
        SetNext(node.contiguous, previous, FREE);
        FreeCluster(previous);
        return NoSpace, next, false;
      }
      WalkOne(fat, node.start);
      SetNext(node.contiguous, next, END);
      rc, stopped := Ok, false;
    }

    /** The first cluster of an empty file. */
    method Begin(node: FileNode) returns (first: nat)
      requires Valid() && Owns(node, [])
      modifies this`dirty, chunk, node`start, node`fptrCluster, node`contiguous
      ensures Valid() && fat == old(fat) && Noted(old(dirty), old(Free()))
      ensures first == END <==> old(Free()) == {}
      ensures first == END ==> Owns(node, []) && Free() == {} && node.contiguous == old(node.contiguous)
      ensures first != END ==> first in old(Free()) && Free() == old(Free()) - {first}
      ensures first != END ==> Owns(node, [first]) && !OnlyBelow(node, [first])
    {
      hide FirstFit, FreeSet, Flags;
      ghost var free := Free();
      first := Allocate(0);
      FitFree(free, size, FIRST_DATA + SearchStart(0, size), first);
      if Invalid(first) {
        return;
      }
      FirstHasNoneBelow(free, size, first);
      node.fptrCluster, node.start := first, first;
      node.contiguous := true;
      assert first - 1 !in Free();
    }

    /** `grow_file`: on success the list gains exactly `difference` clusters that were free;
        without enough of them everything is as before. */
    method Grow(node: FileNode, current: nat, difference: nat, ghost cl: seq<nat>)
      returns (rc: Status, ghost now: seq<nat>)
      requires Valid() && Owns(node, cl) && Ended(fat, node.contiguous, cl) && current == |cl| && 0 < difference
      requires !OnlyBelow(node, cl)
      modifies this`dirty, this`fat, chunk, node`start, node`fptrIndex, node`fptrCluster, node`contiguous, node`dirty
      ensures Valid() && Owns(node, now) && Ended(fat, node.contiguous, now)
      ensures rc == if |old(Free())| < difference then NoSpace else Ok
      ensures rc == NoSpace ==> now == cl && Free() == old(Free())
      ensures rc == Ok ==> |now| == current + difference && now[..current] == cl && !OnlyBelow(node, now)
      ensures rc == Ok ==> Elems(now[current..]) <= old(Free()) && Free() == old(Free()) - Elems(now[current..])
      ensures Noted(old(dirty), old(Free())) && (old(node.dirty) ==> node.dirty)
      ensures cl != [] ==> node.contiguous == old(node.contiguous) || node.dirty
      ensures forall c :: 0 <= c < |fat| && c !in cl && c !in old(Free()) ==> fat[c] == old(fat)[c]
    {
      hide Linked, Listed, Ended, FreeSet, Flags, Elems, OneBelow, Grown, Volume.Owns, FileNode.Holds, Volume.OnlyBelow;
      ghost var free := Free();
      var previous, taken;
      previous, taken, now := GrowFrom(node, current, cl);
      if previous == END {
        return NoSpace, cl;
      }
      previous, now := GrowOn(node, previous, current, difference, taken, cl, now, free);
      if previous == END {
        return NoSpace, cl;
      }
      GrownResult(cl, now, free, Free(), size, this, node);
      Seal(node, previous, now);
      rc := Ok;
    }

    /** The start of `grow_file`: the last cluster of the file, or a first one. */
    method GrowFrom(node: FileNode, current: nat, ghost cl: seq<nat>)
      returns (previous: nat, taken: nat, ghost now: seq<nat>)
      requires Valid() && Owns(node, cl) && Ended(fat, node.contiguous, cl) && current == |cl| && !OnlyBelow(node, cl)
      modifies this`dirty, chunk, node`start, node`fptrIndex, node`fptrCluster, node`contiguous
      ensures Valid() && fat == old(fat) && Noted(old(dirty), old(Free()))
      ensures taken == if cl == [] && previous != END then 1 else 0
      ensures previous == END ==> cl == [] && Owns(node, []) && Ended(fat, node.contiguous, [])
      ensures previous == END ==> old(Free()) == {} == Free()
      ensures previous != END ==> Owns(node, now) && now != [] && previous == now[|now| - 1] && |now| == current + taken
      ensures previous != END ==> Grown(cl, now, old(Free()), Free()) && !OnlyBelow(node, now)
      ensures cl != [] ==> now == cl && Ended(fat, node.contiguous, now)
      ensures cl != [] ==> node.contiguous == old(node.contiguous)
    {
      hide Linked, Listed, FreeSet, Flags, Elems, OneBelow, Grown;
      ghost var free := Free();
      now, taken := cl, 0;
      GrownNot(cl, free);
      if cl != [] {
        LastListed(cl, size);
      }
      if node.start != FREE {
        previous := Advance(node, current - 1, cl);
      } else {
        previous := Begin(node);
        if previous != END {
          GrownBy([], [], previous, free, free);
          taken, now := 1, [previous];
        }
      }
    }

    /** The end of `grow_file`: the last cluster is marked as such. */
    method Seal(node: FileNode, last: nat, ghost cl: seq<nat>)
      requires Valid() && Owns(node, cl) && cl != [] && last == cl[|cl| - 1]
      modifies this`fat
      ensures Valid() && Owns(node, cl) && Ended(fat, node.contiguous, cl) && Free() == old(Free())
      ensures OnlyBelow(node, cl) == old(OnlyBelow(node, cl))
      ensures forall c :: 0 <= c < |fat| && c !in cl ==> fat[c] == old(fat)[c]
    {
      hide Linked, Listed, Ended, FreeSet, Flags, Elems, OneBelow;
      LastListed(cl, size);
      EndedNow(fat, node.contiguous, cl, size);
      SetNext(node.contiguous, last, END);
    }

    /** The loop of `grow_file`. */
    method GrowOn(node: FileNode, last: nat, current: nat, difference: nat, done: nat,
                  ghost cl: seq<nat>, ghost begun: seq<nat>, ghost free: set<nat>)
      returns (previous: nat, ghost now: seq<nat>)
      requires Valid() && Owns(node, begun) && begun != [] && last == begun[|begun| - 1]
      requires |begun| == current + done && current == |cl| && done <= difference && 0 < difference
      requires !OnlyBelow(node, begun) && Grown(cl, begun, free, Free())
      requires done == 0 ==> Ended(fat, node.contiguous, begun)
      modifies this`dirty, this`fat, chunk, node`start, node`fptrIndex, node`fptrCluster, node`contiguous, node`dirty
      ensures Valid()
      ensures previous == END ==>
                Owns(node, cl) && Ended(fat, node.contiguous, cl) && Free() == free && |free| < difference
      ensures previous != END ==> Owns(node, now) && |now| == current + difference && previous == now[|now| - 1]
      ensures previous != END ==> Grown(cl, now, free, Free()) && !OnlyBelow(node, now)
      ensures Noted(old(dirty), old(Free())) && (old(node.dirty) ==> node.dirty)
      ensures node.contiguous == old(node.contiguous) || node.dirty
      ensures forall c :: 0 <= c < |fat| && c !in cl && c !in free ==> fat[c] == old(fat)[c]
    {
      hide Linked, Listed, Ended, FreeSet, Flags, Elems, OneBelow, Grown, Released;
      hide Volume.Owns, FileNode.Holds, Volume.OnlyBelow;
      var taken := done;
      previous, now := last, begun;
      while taken < difference
        invariant Valid() && Owns(node, now) && now != [] && previous == now[|now| - 1]
        invariant |now| == current + taken && taken <= difference
        invariant !OnlyBelow(node, now) && Grown(cl, now, free, Free())
        invariant taken == 0 ==> Ended(fat, node.contiguous, now)
        invariant Noted(old(dirty), old(Free())) && (old(node.dirty) ==> node.dirty)
        invariant node.contiguous == old(node.contiguous) || node.dirty
        invariant forall c :: 0 <= c < |fat| && c !in cl && c !in free ==> fat[c] == old(fat)[c]
      {
        ghost var left := Free();
        GrownKeeps(cl, now, free, left);
        var next := Extend(node, previous, now);
        if next == END {
          GrownResult(cl, now, free, Free(), size, this, node);
          GrownBack(cl, now, free, Free());
          if taken != 0 {
            ghost var kept := Shrink(node, current + taken, taken, now);
          }
          return END, cl;
        }
        GrownBy(cl, now, next, free, left);
        StillOpen(node, now + [next]);
        previous := next;
        now := now + [next];
        taken := taken + 1;
      }
      LastOwned(node, now);
    }

    /** A file that is not contiguous is not the exception. */
    lemma StillOpen(node: FileNode, cl: seq<nat>)
      requires Valid() && !node.contiguous
      ensures !OnlyBelow(node, cl)
    {
    }

    lemma LastOwned(node: FileNode, cl: seq<nat>)
      requires Valid() && Owns(node, cl) && cl != []
      ensures cl[|cl| - 1] != END
    {
      LastListed(cl, size);
    }
  }

  lemma WalkOne(fat: seq<nat>, start: nat)
    ensures Walk(fat, true, start, 1) == start + 1
  {
    assert Walk(fat, true, start, 0) == start;
  }

  lemma LastListed(cl: seq<nat>, size: nat)
    requires Listed(cl, size) && cl != []
    ensures InVolume(cl[|cl| - 1], size) && InVolume(cl[0], size)
  {
  }

  lemma ElemsHas(cl: seq<nat>, free: set<nat>)
    requires Elems(cl) !! free
    ensures forall c :: c in cl ==> c !in free
  {
  }

  lemma FitFree(free: set<nat>, size: nat, start: nat, r: nat)
    requires free <= Clusters(size) && size + FIRST_DATA <= LAST_DATA + 1
    requires if r == END then free == {} else FirstFit(free, start, r)
    ensures if r == END then free == {} else r in free && InVolume(r, size) && !Invalid(r)
  {
  }

  /** In a contiguous list of two or more, the cluster below the last is in the list. */
  lemma SecondBelow(fat: seq<nat>, contiguous: bool, cl: seq<nat>, next: nat)
    requires cl != [] && Linked(fat, contiguous, cl) && next !in cl
    ensures contiguous && next + 1 == cl[|cl| - 1] ==> |cl| == 1
    ensures contiguous && next + 1 == cl[|cl| - 1] ==> !Linked(fat, contiguous, cl + [next])
  {
    if contiguous && |cl| > 1 {
      var second := cl[|cl| - 2];
      assert second in cl && second + 1 == cl[|cl| - 1];
    }
    if contiguous && next + 1 == cl[|cl| - 1] {
      assert (cl + [next])[|cl|] == next;
    }
  }

  lemma LinkedAppend(fat: seq<nat>, cl: seq<nat>, size: nat, next: nat)
    requires Listed(cl, size) && cl != [] && |fat| == FIRST_DATA + size
    ensures Linked(fat, false, cl) ==> Linked(fat[cl[|cl| - 1] := next], false, cl + [next])
  {
  }

  lemma InList(cl: seq<nat>, size: nat)
    requires Listed(cl, size)
    ensures forall i :: 0 <= i < |cl| ==> InVolume(cl[i], size)
  {
  }

  lemma NextInList(fat: seq<nat>, contiguous: bool, cl: seq<nat>, i: nat)
    requires Linked(fat, contiguous, cl) && i + 1 < |cl|
    ensures contiguous || cl[i] < |fat|
    ensures Next(fat, contiguous, cl[i]) == cl[i + 1]
  {
  }

  /** Marking the end of the first part leaves both parts linked. */
  lemma Cut(fat: seq<nat>, contiguous: bool, cl: seq<nat>, size: nat, n: nat)
    requires Linked(fat, contiguous, cl) && Listed(cl, size) && 0 < n < |cl| && |fat| == FIRST_DATA + size
    ensures var fat' := if contiguous then fat else fat[cl[n - 1] := END];
            && Linked(fat', contiguous, cl[..n]) && Ended(fat', contiguous, cl[..n])
            && Linked(fat', contiguous, cl[n..])
  {
  }

  lemma Uncut(fat: seq<nat>, contiguous: bool, cl: seq<nat>)
    requires Linked(fat, contiguous, cl)
    ensures Linked(fat, contiguous, cl[..0]) && Ended(fat, contiguous, cl[..0]) && Linked(fat, contiguous, cl[0..])
  {
    assert cl[0..] == cl && cl[..0] == [];
  }

  lemma NoElems(cl: seq<nat>, n: nat)
    requires n <= |cl|
    ensures Elems(cl[n..n]) == {}
  {
  }

  /** Freeing one more cluster of the tail. */
  lemma TailStep(fat: seq<nat>, contiguous: bool, cl: seq<nat>, size: nat, n: nat, i: nat)
    requires n <= i < |cl| && Listed(cl, size) && |fat| == FIRST_DATA + size
    requires Linked(fat, contiguous, cl[i..]) && Linked(fat, contiguous, cl[..n]) && Ended(fat, contiguous, cl[..n])
    ensures InVolume(cl[i], size)
    ensures i + 1 < |cl| ==> Next(fat, contiguous, cl[i]) == cl[i + 1]
    ensures var fat' := if contiguous then fat else fat[cl[i] := FREE];
            && Linked(fat', contiguous, cl[i + 1..])
            && Linked(fat', contiguous, cl[..n]) && Ended(fat', contiguous, cl[..n])
  {
  }

  /** The FAT entries of the clusters from place `n` to place `i` of the list are free again. */
  ghost predicate Released(fat: seq<nat>, cl: seq<nat>, n: nat, i: nat) {
    forall k :: n <= k < i && k < |cl| ==> cl[k] < |fat| && fat[cl[k]] == FREE
  }

  lemma ReleasedNone(fat: seq<nat>, cl: seq<nat>, n: nat)
    ensures Released(fat, cl, n, n)
  {
  }

  lemma ReleasedMore(fat: seq<nat>, cl: seq<nat>, size: nat, n: nat, i: nat)
    requires n <= i < |cl| && Listed(cl, size) && |fat| == FIRST_DATA + size && Released(fat, cl, n, i)
    ensures InVolume(cl[i], size) && Released(fat[cl[i] := FREE], cl, n, i + 1)
  {
  }

  lemma ElemsNext(cl: seq<nat>, n: nat, i: nat)
    requires n <= i < |cl|
    ensures Elems(cl[n..i + 1]) == Elems(cl[n..i]) + {cl[i]}
  {
    assert cl[n..i + 1] == cl[n..i] + [cl[i]];
    ElemsAppend(cl[n..i], cl[i]);
  }

  // ----- growing

  /** `now` is `cl` followed by clusters taken from `free`, which leaves `left`. */
  ghost predicate Grown(cl: seq<nat>, now: seq<nat>, free: set<nat>, left: set<nat>) {
    && |cl| <= |now| && now[..|cl|] == cl
    && Elems(now[|cl|..]) <= free && left == free - Elems(now[|cl|..])
  }

  lemma GrownNot(cl: seq<nat>, free: set<nat>)
    ensures Grown(cl, cl, free, free)
  {
    assert Elems(cl[|cl|..]) == {};
  }

  lemma GrownBy(cl: seq<nat>, now: seq<nat>, next: nat, free: set<nat>, left: set<nat>)
    requires next in left && Grown(cl, now, free, left)
    ensures Grown(cl, now + [next], free, left - {next})
  {
    assert (now + [next])[|cl|..] == now[|cl|..] + [next];
    ElemsAppend(now[|cl|..], next);
  }

  lemma GrownSize(cl: seq<nat>, now: seq<nat>, free: set<nat>, left: set<nat>, size: nat)
    requires Grown(cl, now, free, left) && Listed(now, size)
    ensures |free| == |left| + |now| - |cl|
  {
    var new_ := now[|cl|..];
    assert Listed(new_, size);
    ElemsSize(new_, size);
    assert free == left + Elems(new_);
  }

  lemma GrownBack(cl: seq<nat>, now: seq<nat>, free: set<nat>, left: set<nat>)
    requires Grown(cl, now, free, left)
    ensures |cl| <= |now| && now[..|cl|] == cl && left + Elems(now[|cl|..]) == free
    ensures left == free - Elems(now[|cl|..])
    ensures |now| == |cl| ==> now == cl && left == free
  {
    if |now| == |cl| {
      assert now == now[..|cl|];
      assert Elems(now[|cl|..]) == {};
    }
  }

  lemma GrownResult(cl: seq<nat>, now: seq<nat>, free: set<nat>, left: set<nat>, size: nat, v: Volume, node: FileNode)
    requires Grown(cl, now, free, left) && v.Valid() && v.size == size && v.Owns(node, now)
    ensures |cl| <= |now| && now[..|cl|] == cl && |free| == |left| + |now| - |cl|
    ensures Elems(now[|cl|..]) <= free && left == free - Elems(now[|cl|..])
    ensures forall c :: c !in cl && c !in free ==> c !in now
  {
    GrownSize(cl, now, free, left, size);
    GrownKeeps(cl, now, free, left);
  }

  lemma GrownKeeps(cl: seq<nat>, now: seq<nat>, free: set<nat>, left: set<nat>)
    requires Grown(cl, now, free, left)
    ensures forall c :: c !in cl && c !in free ==> c !in now
  {
    forall c | c in now
      ensures c in cl || c in free
    {
      var i :| 0 <= i < |now| && now[i] == c;
      if i < |cl| {
        assert now[..|cl|][i] == c;
      } else {
        assert now[|cl|..][i - |cl|] == c;
        assert c in Elems(now[|cl|..]);
      }
    }
  }

  lemma EndedNow(fat: seq<nat>, contiguous: bool, cl: seq<nat>, size: nat)
    requires Listed(cl, size) && cl != [] && Linked(fat, contiguous, cl) && |fat| == FIRST_DATA + size
    ensures var fat' := if contiguous then fat else fat[cl[|cl| - 1] := END];
            Linked(fat', contiguous, cl) && Ended(fat', contiguous, cl)
  {
  }
}
