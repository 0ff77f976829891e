/** src/f2fs/dir.c: the names in one directory block. */
module Dentry {
  import opened Sequences
  import opened BitSearch

  const SLOT_LEN: nat := 8

  /** `GET_DENTRY_SLOTS` */
  function Slots(len: nat): nat {
    (len + SLOT_LEN - 1) / SLOT_LEN
  }

  ghost predicate AllAre(flags: seq<bool>, from: nat, to: nat, value: bool) {
    to <= |flags| && forall i :: from <= i < to ==> flags[i] == value
  }

  // ----- room for a name

  /** `slots` places from the free place `p` on are free. */
  ghost predicate Room(flags: seq<bool>, slots: nat, p: nat) {
    p < |flags| && !flags[p] && AllAre(flags, p, p + slots, false)
  }

  /** `room_for_filename`: the least place with room, or the number of places if there is none. */
  method RoomForFilename(bitmap: array<bv8>, slots: nat, max: nat) returns (p: nat)
    requires max <= 8 * bitmap.Length
    ensures p <= max && (p < max ==> Room(Flags(bitmap[..], max), slots, p))
    ensures forall q :: 0 <= q < p ==> !Room(Flags(bitmap[..], max), slots, q)
  {
    hide Flags, FirstFrom, Room;
    var start := 0;
    ghost var flags := Flags(bitmap[..], max);
    while true
      invariant start <= max && forall q :: 0 <= q < start ==> !Room(flags, slots, q)
      decreases max - start
    {
      var zero := FindNext(bitmap, max, start, true);
      UpToZero(flags, slots, start, zero);
      if max <= zero {
        return max;
      }
      var end := FindNext(bitmap, max, zero + 1, false);
      AfterZero(flags, slots, start, zero, end);
      if slots <= end - zero {
        return zero;
      }
      start := end;
    }
  }

  lemma UpToZero(flags: seq<bool>, slots: nat, start: nat, zero: nat)
    requires FirstFrom(flags, start, false, zero) && start <= |flags|
    requires forall q :: 0 <= q < start ==> !Room(flags, slots, q)
    ensures start <= zero <= |flags| && forall q :: 0 <= q < zero ==> !Room(flags, slots, q)
  {
  }

  lemma AfterZero(flags: seq<bool>, slots: nat, start: nat, zero: nat, end: nat)
    requires FirstFrom(flags, start, false, zero) && start <= zero < |flags| && FirstFrom(flags, zero + 1, true, end)
    requires forall q :: 0 <= q < zero ==> !Room(flags, slots, q)
    ensures zero < end <= |flags|
    ensures slots <= end - zero ==> Room(flags, slots, zero)
    ensures end - zero < slots ==> forall q :: 0 <= q < end ==> !Room(flags, slots, q)
  {
    assert forall i :: zero <= i < end ==> !flags[i];
    assert end < |flags| ==> flags[end];
    if end - zero < slots {
      forall q | zero <= q < end
        ensures !Room(flags, slots, q)
      {
        assert end < q + slots;
      }
    }
  }

  // ----- a well-formed block

  /** Walking over the places from `pos` on, every name lies in places that are marked. */
  ghost predicate WellFormed(flags: seq<bool>, lens: seq<nat>, pos: nat)
    requires |flags| == |lens|
    decreases |flags| - pos
  {
    if |flags| <= pos then true
    else if !flags[pos] then WellFormed(flags, lens, pos + 1)
    else
      && 0 < lens[pos] && AllAre(flags, pos, pos + Slots(lens[pos]), true)
      && WellFormed(flags, lens, pos + Slots(lens[pos]))
  }

  /** `q` is a place where, walking from `pos`, a name begins. */
  ghost predicate IsEntry(flags: seq<bool>, lens: seq<nat>, pos: nat, q: nat)
    requires |flags| == |lens|
    decreases |flags| - pos
  {
    if |flags| <= pos then false
    else if !flags[pos] then IsEntry(flags, lens, pos + 1, q)
    else q == pos || (0 < lens[pos] && IsEntry(flags, lens, pos + Slots(lens[pos]), q))
  }

  lemma EntryStep(flags: seq<bool>, lens: seq<nat>, pos: nat, q: nat)
    requires |flags| == |lens| && pos < |flags| && WellFormed(flags, lens, pos)
    ensures IsEntry(flags, lens, pos, q) <==>
              if flags[pos] then q == pos || IsEntry(flags, lens, pos + Slots(lens[pos]), q)
              else IsEntry(flags, lens, pos + 1, q)
  {
  }

  /** Only what comes later matters. */
  lemma {:induction false} Later(flags: seq<bool>, lens: seq<nat>, flags': seq<bool>, lens': seq<nat>, pos: nat)
    requires |flags| == |lens| == |flags'| == |lens'|
    requires forall i :: pos <= i < |flags| ==> flags'[i] == flags[i] && lens'[i] == lens[i]
    requires WellFormed(flags, lens, pos)
    ensures WellFormed(flags', lens', pos)
    ensures forall q :: IsEntry(flags', lens', pos, q) <==> IsEntry(flags, lens, pos, q)
    decreases |flags| - pos
  {
    if pos < |flags| {
      Later(flags, lens, flags', lens', if flags[pos] then pos + Slots(lens[pos]) else pos + 1);
    }
  }

  /** Free places are stepped over one by one. */
  lemma {:induction false} OverFree(flags: seq<bool>, lens: seq<nat>, pos: nat, upto: nat)
    requires |flags| == |lens| && pos <= upto && AllAre(flags, pos, upto, false)
    ensures WellFormed(flags, lens, pos) <==> WellFormed(flags, lens, upto)
    ensures forall q :: IsEntry(flags, lens, pos, q) <==> IsEntry(flags, lens, upto, q)
    decreases upto - pos
  {
    if pos < upto {
      OverFree(flags, lens, pos + 1, upto);
    }
  }

  ghost function Marked(flags: seq<bool>, from: nat, to: nat): (s: seq<bool>)
    requires from <= to <= |flags|
    ensures |s| == |flags| && forall i :: 0 <= i < |s| ==> s[i] == (flags[i] || from <= i < to)
  {
    seq(|flags|, i requires 0 <= i < |flags| => flags[i] || from <= i < to)
  }

  /** A new name in free places adds one entry and disturbs none. */
  lemma {:induction false} Inserted(flags: seq<bool>, lens: seq<nat>, pos: nat, p: nat, len: nat)
    requires |flags| == |lens| && WellFormed(flags, lens, pos) && pos <= p && 0 < len
    requires AllAre(flags, p, p + Slots(len), false)
    ensures p < |flags|
    ensures WellFormed(Marked(flags, p, p + Slots(len)), lens[p := len], pos)
    ensures forall q :: IsEntry(Marked(flags, p, p + Slots(len)), lens[p := len], pos, q) <==>
                          q == p || IsEntry(flags, lens, pos, q)
    decreases |flags| - pos
  {
    hide Slots, IsEntry;
    SomeSlots(len);
    var end := p + Slots(len);
    var flags', lens' := Marked(flags, p, end), lens[p := len];
    if pos == p {
      OverFree(flags, lens, p, end);
      Later(flags, lens, flags', lens', end);
    } else {
      if flags[pos] {
        SomeSlots(lens[pos]);
        assert pos + Slots(lens[pos]) <= p by {
          assert AllAre(flags, pos, pos + Slots(lens[pos]), true) && !flags[p];
        }
        assert AllAre(flags', pos, pos + Slots(lens[pos]), true);
      }
      Inserted(flags, lens, if flags[pos] then pos + Slots(lens[pos]) else pos + 1, p, len);
    }
    forall q
      ensures IsEntry(flags', lens', pos, q) <==> q == p || IsEntry(flags, lens, pos, q)
    {
      EntryStep(flags, lens, pos, q);
      EntryStep(flags', lens', pos, q);
    }
  }

  lemma SomeSlots(len: nat)
    requires 0 < len
    ensures 0 < Slots(len) && len <= SLOT_LEN * Slots(len) < len + SLOT_LEN
    ensures len == SLOT_LEN * Slots(len) <==> len % SLOT_LEN == 0
  {
  }

  /** Where entries are. */
  lemma {:induction false} EntryFits(flags: seq<bool>, lens: seq<nat>, pos: nat, q: nat)
    requires |flags| == |lens| && WellFormed(flags, lens, pos) && IsEntry(flags, lens, pos, q)
    ensures pos <= q < |flags| && 0 < lens[q] && AllAre(flags, q, q + Slots(lens[q]), true) && 0 < Slots(lens[q])
    decreases |flags| - pos
  {
    hide Slots;
    if flags[pos] {
      SomeSlots(lens[pos]);
    }
    if q != pos || !flags[pos] {
      EntryFits(flags, lens, if flags[pos] then pos + Slots(lens[pos]) else pos + 1, q);
    }
  }

  // ----- gaps

  /** How many places right before `n` are free. */
  ghost function FreeBefore(flags: seq<bool>, n: nat): (k: nat)
    requires n <= |flags|
    ensures k <= n
  {
    if n == 0 || flags[n - 1] then 0 else FreeBefore(flags, n - 1) + 1
  }

  /** The longest run of free places among the first `n`. */
  ghost function LongestGap(flags: seq<bool>, n: nat): nat
    requires n <= |flags|
  {
    if n == 0 then 0 else Larger(LongestGap(flags, n - 1), FreeBefore(flags, n))
  }

  function Larger(a: nat, b: nat): nat {
    if a < b then b else a
  }

  lemma {:induction false} FreeBeforeIs(flags: seq<bool>, n: nat, k: nat)
    requires k <= n <= |flags|
    ensures k <= FreeBefore(flags, n) <==> AllAre(flags, n - k, n, false)
  {
    if 0 < k {
      FreeBeforeIs(flags, n - 1, k - 1);
    }
  }

  /** `k` free places from `p` on, among the first `n`. */
  ghost predicate IsGap(flags: seq<bool>, p: nat, k: nat, n: nat) {
    p + k <= n && AllAre(flags, p, p + k, false)
  }

  /** The gap reported is at least `k` exactly if `k` free places follow one another. */
  lemma {:induction false} GapIsRoom(flags: seq<bool>, n: nat, k: nat)
    requires n <= |flags|
    ensures k <= LongestGap(flags, n) <==> exists p: nat :: IsGap(flags, p, k, n)
  {
    if n == 0 {
      assert k == 0 ==> IsGap(flags, 0, k, n);
    } else {
      GapIsRoom(flags, n - 1, k);
      if k <= LongestGap(flags, n - 1) {
        var p: nat :| IsGap(flags, p, k, n - 1);
        assert IsGap(flags, p, k, n);
      }
      if k <= n {
        FreeBeforeIs(flags, n, k);
        assert k <= FreeBefore(flags, n) <==> IsGap(flags, n - k, k, n);
      }
      forall p: nat | IsGap(flags, p, k, n)
        ensures k <= LongestGap(flags, n)
      {
        if p + k != n {
          assert IsGap(flags, p, k, n - 1);
        }
      }
    }
  }

  lemma GapStep(flags: seq<bool>, n: nat)
    requires n < |flags| && !flags[n]
    ensures FreeBefore(flags, n + 1) == FreeBefore(flags, n) + 1
    ensures LongestGap(flags, n + 1) == Larger(LongestGap(flags, n), FreeBefore(flags, n + 1))
  {
  }

  /** Marked places end a gap. */
  lemma {:induction false} GapOver(flags: seq<bool>, m: nat, n: nat)
    requires m < n && AllAre(flags, m, n, true)
    ensures FreeBefore(flags, n) == 0 && LongestGap(flags, n) == LongestGap(flags, m)
  {
    if m + 1 < n {
      GapOver(flags, m, n - 1);
    }
  }

  // ----- the block

  /** The bytes of the name at place `q`. */
  function NameAt(names: seq<byte>, q: nat, len: nat): seq<byte>
    requires SLOT_LEN * q + len <= |names|
  {
    names[SLOT_LEN * q..SLOT_LEN * q + len]
  }

  class Block {
    const max: nat
    const bitmap: array<bv8>
    const lens: array<nat>
    const hashes: array<nat>
    const inos: array<nat>
    const types: array<nat>
    const names: array<byte>

    constructor (max: nat)
      ensures Valid() && this.max == max && forall q :: !Entry(q)
      ensures AllAre(Flags(bitmap[..], max), 0, max, false)
      ensures fresh(bitmap) && fresh(lens) && fresh(hashes) && fresh(inos) && fresh(types) && fresh(names)
    {
      this.max := max;
      bitmap := new bv8[(max + 7) / 8](_ => 0);
      lens := new nat[max](_ => 0);
      hashes := new nat[max](_ => 0);
      inos := new nat[max](_ => 0);
      types := new nat[max](_ => 0);
      names := new byte[SLOT_LEN * max](_ => 0);
      new;
      AllFree(Flags(bitmap[..], max), lens[..]);
    }

    ghost predicate Shape()
    {
      && max <= 8 * bitmap.Length && lens.Length == hashes.Length == inos.Length == types.Length == max
      && names.Length == SLOT_LEN * max
      && lens != hashes && lens != inos && lens != types && hashes != inos && hashes != types && inos != types
      && bitmap != names && {lens as object, hashes, inos, types} !! {bitmap as object, names}
    }

    ghost predicate Valid()
      reads bitmap, lens
    {
      Shape() && WellFormed(Flags(bitmap[..], max), lens[..], 0)
    }

    ghost predicate Entry(q: nat)
      requires Shape()
      reads bitmap, lens
    {
      IsEntry(Flags(bitmap[..], max), lens[..], 0, q)
    }

    /** The entry at `q` is for `name`. */
    ghost predicate Holds(q: nat, name: seq<byte>, hash: nat)
      requires Shape()
      reads lens, hashes, names
    {
      q < max && lens[q] == |name| && hashes[q] == hash && SLOT_LEN * q + |name| <= names.Length &&
        NameAt(names[..], q, |name|) == name
    }

    /** `find_target_dentry`: the first entry for the name, or `max` exactly if there is none, and the longest
        gap on the way. */
    method Find(name: seq<byte>, hash: nat) returns (pos: nat, gap: nat)
      requires Valid()
      ensures pos < max ==> Entry(pos) && Holds(pos, name, hash)
      ensures pos <= max && forall q :: Entry(q) && Holds(q, name, hash) ==> pos < max && pos <= q
      ensures gap == LongestGap(Flags(bitmap[..], max), pos)
    {
      hide WellFormed, IsEntry, Flags, NameAt, LongestGap, FreeBefore;
      ghost var flags, ls := Flags(bitmap[..], max), lens[..];
      pos, gap := 0, 0;
      var length := 0;
      NoGap(flags);
      while pos < max
        invariant WellFormed(flags, ls, pos) && pos <= max
        invariant length == FreeBefore(flags, pos) && Larger(gap, length) == LongestGap(flags, pos)
        invariant forall q :: IsEntry(flags, ls, pos, q) ==> Entry(q)
        invariant forall q :: Entry(q) && Holds(q, name, hash) ==> IsEntry(flags, ls, pos, q)
      {
        FormStep(flags, ls, pos);
        forall q
          ensures IsEntry(flags, ls, pos, q) <==>
                    if flags[pos] then q == pos || IsEntry(flags, ls, pos + Slots(ls[pos]), q)
                    else IsEntry(flags, ls, pos + 1, q)
          ensures IsEntry(flags, ls, pos, q) ==> pos <= q
        {
          EntryStep(flags, ls, pos, q);
          if IsEntry(flags, ls, pos, q) {
            EntryFits(flags, ls, pos, q);
          }
        }
        if !Bit(bitmap[pos / 8], pos % 8) {
          GapStep(flags, pos);
          pos := pos + 1;
          length := length + 1;
          continue;
        }
        assert flags[pos];
        if lens[pos] == |name| && hashes[pos] == hash && names[SLOT_LEN * pos..SLOT_LEN * pos + |name|] == name {
          NameIs(names[..], pos, |name|);
          gap := Larger(gap, length);
          return;
        }
        NameIs(names[..], pos, lens[pos]);
        GapOver(flags, pos, pos + Slots(lens[pos]));
        gap := Larger(gap, length);
        length := 0;
        pos := pos + Slots(lens[pos]);
      }
      NoneLeft(flags, ls, pos);
      gap := Larger(gap, length);
    }

    /** `f2fs_update_dentry`, in places found free for the name. The new name is an entry, and every
        other entry keeps its name unless the zero byte written after the new name falls on it. That byte may
        also fall behind the block (not `inside`). */
    method Update(ino: nat, fileType: nat, name: seq<byte>, hash: nat, pos: nat) returns (inside: bool)
      requires Valid() && 0 < |name| && Room(Flags(bitmap[..], max), Slots(|name|), pos)
      modifies bitmap, lens, hashes, inos, types, names
      ensures inside <==> |name| % SLOT_LEN != 0 || pos + Slots(|name|) < max
      ensures Flags(bitmap[..], max) == MarkedFor(old(Flags(bitmap[..], max)), pos, |name|)
      ensures Valid() && forall q: nat :: Entry(q) <==> q == pos || old(Entry(q))
      ensures Holds(pos, name, hash) && inos[pos] == ino && types[pos] == fileType
      ensures forall q: nat :: old(Entry(q)) ==>
                && q < max && q != pos && lens[q] == old(lens[q]) && hashes[q] == old(hashes[q])
                && inos[q] == old(inos[q]) && types[q] == old(types[q])
                && SLOT_LEN * q + lens[q] <= names.Length
                && (NameAt(names[..], q, lens[q]) == old(NameAt(names[..], q, lens[q])) <==>
                      !old(Struck(|name|, pos, q)))
    {
      hide WellFormed, IsEntry, Flags, NameAt, Room, Slots, Marked, Named, StruckAt, MarkedFor;
      ghost var flags, ns := Flags(bitmap[..], max), names[..];
      ghost var ls: seq<nat> := lens[..];
      RoomFits(flags, |name|, pos);
      Inserted(flags, ls, 0, pos, |name|);
      NamesAfter(flags, ls, ns, pos, name);
      lens[pos] := |name|;
      hashes[pos] := hash;
      inside := WriteName(name, pos);
      inos[pos] := ino;
      types[pos] := fileType;
      MarkSlots(pos, Slots(|name|));
      MarkedForIs(flags, pos, |name|);
      assert lens[..] == ls[pos := |name|];
    }

    /** The `memcpy` of the name and the zero byte after it. */
    method WriteName(name: seq<byte>, pos: nat) returns (inside: bool)
      requires Shape() && SLOT_LEN * pos + |name| <= names.Length
      modifies names
      ensures inside <==> SLOT_LEN * pos + |name| < names.Length
      ensures names[..] == Named(old(names[..]), pos, name)
    {
      ghost var was := names[..];
      var i := 0;
      while i < |name|
        invariant 0 <= i <= |name|
        invariant forall x :: 0 <= x < names.Length ==>
                    names[x] == if SLOT_LEN * pos <= x < SLOT_LEN * pos + i then name[x - SLOT_LEN * pos] else was[x]
      {
        names[SLOT_LEN * pos + i] := name[i];
        i := i + 1;
      }
      inside := SLOT_LEN * pos + |name| < names.Length;
      if inside {
        names[SLOT_LEN * pos + |name|] := 0;
      }
    }

    method MarkSlots(pos: nat, slots: nat)
      requires Shape() && pos + slots <= max
      modifies bitmap
      ensures Flags(bitmap[..], max) == Marked(old(Flags(bitmap[..], max)), pos, pos + slots)
    {
      hide Flags;
      ghost var was := Flags(bitmap[..], max);
      var i := 0;
      while i < slots
        invariant 0 <= i <= slots && Flags(bitmap[..], max) == Marked(was, pos, pos + i)
      {
        SetBit(pos + i, bitmap);
        i := i + 1;
      }
    }

    /** What `f2fs_add_link` does with one block: the name goes to the first place with room. */
    method Add(ino: nat, fileType: nat, name: seq<byte>, hash: nat) returns (pos: nat)
      requires Valid() && 0 < |name|
      modifies bitmap, lens, hashes, inos, types, names
      ensures pos < max <==> exists p: nat :: old(Room(Flags(bitmap[..], max), Slots(|name|), p))
      ensures Valid() && forall q: nat :: Entry(q) <==> (q == pos && pos < max) || old(Entry(q))
      ensures pos < max ==> Holds(pos, name, hash) && inos[pos] == ino && types[pos] == fileType
      ensures forall q: nat :: q < pos && old(Entry(q)) ==>
                q < max && (Holds(q, name, hash) ==> old(Holds(q, name, hash)))
    {
      hide WellFormed, IsEntry, Flags, NameAt, Room, Slots, MarkedFor;
      pos := RoomForFilename(bitmap, Slots(|name|), max);
      RoomInside(Flags(bitmap[..], max), Slots(|name|));
      if pos < max {
        var inside := Update(ino, fileType, name, hash, pos);
      }
    }

    /** The zero byte after a name of `len` bytes at `pos` falls on the first byte of the entry at `q`,
        which was another one. */
    ghost predicate Struck(len: nat, pos: nat, q: nat)
      requires Shape()
      reads names
    {
      StruckAt(names[..], len, pos, q)
    }
  }

  ghost predicate StruckAt(names: seq<byte>, len: nat, pos: nat, q: nat) {
    len % SLOT_LEN == 0 && q == pos + Slots(len) && SLOT_LEN * q < |names| && names[SLOT_LEN * q] != 0
  }

  lemma MarkedForIs(flags: seq<bool>, pos: nat, len: nat)
    requires pos + Slots(len) <= |flags|
    ensures MarkedFor(flags, pos, len) == Marked(flags, pos, pos + Slots(len))
  {
  }

  /** The names once a new one is written. */
  lemma NamesAfter(flags: seq<bool>, lens: seq<nat>, names: seq<byte>, pos: nat, name: seq<byte>)
    requires |flags| == |lens| && |names| == SLOT_LEN * |flags| && WellFormed(flags, lens, 0)
    requires 0 < |name| && SLOT_LEN * pos + |name| <= |names| && AllAre(flags, pos, pos + Slots(|name|), false)
    ensures NameAt(Named(names, pos, name), pos, |name|) == name
    ensures forall q: nat :: IsEntry(flags, lens, 0, q) ==>
              && q < |flags| && q != pos && SLOT_LEN * q + lens[q] <= |names|
              && (NameAt(Named(names, pos, name), q, lens[q]) == NameAt(names, q, lens[q]) <==>
                    !StruckAt(names, |name|, pos, q))
  {
    hide WellFormed, IsEntry, Named, Slots;
    NewName(names, pos, name);
    forall q: nat | IsEntry(flags, lens, 0, q)
      ensures q < |flags| && q != pos && SLOT_LEN * q + lens[q] <= |names|
      ensures NameAt(Named(names, pos, name), q, lens[q]) == NameAt(names, q, lens[q]) <==>
                !StruckAt(names, |name|, pos, q)
    {
      EntryFits(flags, lens, 0, q);
      NameKept(flags, names, pos, name, q, lens[q]);
    }
  }

  /** The places of a name of `len` bytes at `pos` are marked, if there are as many. */
  ghost function MarkedFor(flags: seq<bool>, pos: nat, len: nat): seq<bool> {
    if pos + Slots(len) <= |flags| then Marked(flags, pos, pos + Slots(len)) else flags
  }

  /** The name area with `name` at place `pos` and a zero byte behind it, as far as there is room. */
  ghost function Named(names: seq<byte>, pos: nat, name: seq<byte>): (s: seq<byte>)
    requires SLOT_LEN * pos + |name| <= |names|
    ensures |s| == |names|
    ensures forall x :: 0 <= x < |s| ==>
              s[x] == if SLOT_LEN * pos <= x < SLOT_LEN * pos + |name| then name[x - SLOT_LEN * pos]
                      else if x == SLOT_LEN * pos + |name| then 0 else names[x]
  {
    names[..SLOT_LEN * pos] + name
    + if SLOT_LEN * pos + |name| < |names| then [0] + names[SLOT_LEN * pos + |name| + 1..] else []
  }

  lemma NewName(names: seq<byte>, pos: nat, name: seq<byte>)
    requires SLOT_LEN * pos + |name| <= |names|
    ensures Named(names, pos, name)[SLOT_LEN * pos..SLOT_LEN * pos + |name|] == name
  {
  }

  /** Another name stays the same, unless it begins where the zero byte falls. */
  lemma NameKept(flags: seq<bool>, names: seq<byte>, pos: nat, name: seq<byte>, q: nat, len: nat)
    requires |names| == SLOT_LEN * |flags| && 0 < |name| && SLOT_LEN * pos + |name| <= |names| && 0 < len
    requires AllAre(flags, pos, pos + Slots(|name|), false) && AllAre(flags, q, q + Slots(len), true)
    ensures q != pos && SLOT_LEN * q + len <= |names|
    ensures NameAt(Named(names, pos, name), q, len) == NameAt(names, q, len) <==>
              !StruckAt(names, |name|, pos, q)
  {
    hide Slots, Named;
    SomeSlots(|name|);
    SomeSlots(len);
    PlacesApart(flags, pos, Slots(|name|), q, Slots(len));
    var s, t := NameAt(Named(names, pos, name), q, len), NameAt(names, q, len);
    forall j | 0 < j < len
      ensures s[j] == t[j]
    {
      BytesApart(pos, |name|, q, len, j);
    }
    assert s == t <==> s[0] == t[0];
  }

  lemma PlacesApart(flags: seq<bool>, pos: nat, n: nat, q: nat, m: nat)
    requires 0 < n && 0 < m && AllAre(flags, pos, pos + n, false) && AllAre(flags, q, q + m, true)
    ensures q + m <= pos || pos + n <= q
  {
    assert flags[q] && !flags[pos];
  }

  /** No byte of one name but the first is where the other, or the byte after it, is. */
  lemma BytesApart(pos: nat, len: nat, q: nat, len': nat, j: nat)
    requires 0 < len && 0 < len' && 0 < j < len' && (q + Slots(len') <= pos || pos + Slots(len) <= q)
    ensures SLOT_LEN * q + j < SLOT_LEN * pos || SLOT_LEN * pos + len < SLOT_LEN * q + j
  {
  }

  lemma RoomFits(flags: seq<bool>, len: nat, pos: nat)
    requires 0 < len && Room(flags, Slots(len), pos)
    ensures AllAre(flags, pos, pos + Slots(len), false) && pos + Slots(len) <= |flags| && pos < |flags|
    ensures SLOT_LEN * pos + len <= SLOT_LEN * |flags|
    ensures len % SLOT_LEN != 0 || pos + Slots(len) < |flags| <==> SLOT_LEN * pos + len < SLOT_LEN * |flags|
  {
  }

  lemma AllFree(flags: seq<bool>, lens: seq<nat>)
    requires |flags| == |lens| && forall i :: 0 <= i < |flags| ==> !flags[i]
    ensures WellFormed(flags, lens, 0) && forall q :: !IsEntry(flags, lens, 0, q)
  {
    OverFree(flags, lens, 0, |flags|);
  }

  lemma FormStep(flags: seq<bool>, lens: seq<nat>, pos: nat)
    requires |flags| == |lens| && pos < |flags| && WellFormed(flags, lens, pos)
    ensures !flags[pos] ==> WellFormed(flags, lens, pos + 1)
    ensures flags[pos] ==>
              0 < Slots(lens[pos]) && pos + Slots(lens[pos]) <= |flags| && lens[pos] <= SLOT_LEN * Slots(lens[pos])
    ensures flags[pos] ==> WellFormed(flags, lens, pos + Slots(lens[pos]))
    ensures flags[pos] ==> AllAre(flags, pos, pos + Slots(lens[pos]), true)
  {
  }

  lemma NoGap(flags: seq<bool>)
    ensures FreeBefore(flags, 0) == 0 && LongestGap(flags, 0) == 0
  {
  }

  lemma NameIs(names: seq<byte>, q: nat, len: nat)
    requires SLOT_LEN * q + len <= |names|
    ensures NameAt(names, q, len) == names[SLOT_LEN * q..SLOT_LEN * q + len]
  {
  }

  lemma NoneLeft(flags: seq<bool>, lens: seq<nat>, pos: nat)
    requires |flags| == |lens| && |flags| <= pos
    ensures forall q :: !IsEntry(flags, lens, pos, q)
  {
  }

  lemma RoomInside(flags: seq<bool>, slots: nat)
    ensures forall p: nat :: Room(flags, slots, p) ==> p < |flags|
  {
  }

  /** A name that is not in a block is added and found again, with its inode number, exactly if there is room. */
  method AddThenFind(b: Block, ino: nat, fileType: nat, name: seq<byte>, hash: nat) returns (found: nat)
    requires b.Valid() && 0 < |name| && forall q: nat :: b.Entry(q) ==> !b.Holds(q, name, hash)
    modifies b.bitmap, b.lens, b.hashes, b.inos, b.types, b.names
    ensures b.Valid() && (found < b.max <==> exists p: nat :: old(Room(Flags(b.bitmap[..], b.max), Slots(|name|), p)))
    ensures found < b.max ==> b.Entry(found) && b.inos[found] == ino && b.types[found] == fileType
  {
    hide WellFormed, IsEntry, Flags, NameAt, Room, Slots, LongestGap;
    var pos := b.Add(ino, fileType, name, hash);
    var gap;
    found, gap := b.Find(name, hash);
    if pos < b.max {
      assert b.Entry(pos);
    }
  }

  /** In a block of three places a name of one byte, 5, is put at place 1 and then a name of eight bytes at place 0:
      the first name is still an entry, but no longer that name. */
  method StrikeExample() returns (b: Block)
    ensures b.Valid() && b.Entry(0) && b.Entry(1) && !b.Holds(1, [5], 0)
  {
    hide IsEntry, WellFormed, Flags;
    b := new Block(3);
    var first, second: seq<byte> := [5], seq(8, _ => 1);
    var inside := b.Update(1, 1, first, 0, 1);
    assert b.names[8] == 5 by {
      assert NameAt(b.names[..], 1, 1)[0] == b.names[8];
    }
    inside := b.Update(2, 1, second, 0, 0);
  }
}
