/** src/jfsclone.c: looking up a block in an extent tree. */
module JfsXtree {
  const ENTRY_START: nat := 2

  datatype Xad = Xad(offset: nat, length: nat, address: nat)

  /** A page of the tree; the first two places of `xad` are the page header. */
  datatype Page =
    | Leaf(xad: seq<Xad>)
    | Internal(xad: seq<Xad>, children: seq<Page>)

  predicate Covers(x: Xad, key: nat) {
    x.offset <= key < x.offset + x.length
  }

  /** `XT_CMP` */
  function Compare(key: nat, x: Xad): int {
    if x.offset + x.length <= key then 1 else if key < x.offset then -1 else 0
  }

  /** The ranges follow each other without overlap. */
  ghost predicate Ordered(xad: seq<Xad>) {
    && ENTRY_START <= |xad|
    && forall i, j :: ENTRY_START <= i < j < |xad| ==> xad[i].offset + xad[i].length <= xad[j].offset
  }

  /** The key lies before every entry of the page. */
  predicate BelowFirst(xad: seq<Xad>, key: nat)
    requires ENTRY_START <= |xad|
  {
    |xad| == ENTRY_START || key < xad[ENTRY_START].offset
  }

  /** The binary search: a hit exactly if some entry covers the key, and otherwise the place just past
      the last entry that lies before it. */
  method Search(xad: seq<Xad>, key: nat) returns (hit: bool, index: nat)
    requires Ordered(xad)
    ensures hit <==> exists i :: ENTRY_START <= i < |xad| && Covers(xad[i], key)
    ensures hit ==> ENTRY_START <= index < |xad| && Covers(xad[index], key)
    ensures !hit ==> ENTRY_START <= index <= |xad|
    ensures !hit ==>
              forall i :: ENTRY_START <= i < |xad| ==>
                if i < index then xad[i].offset + xad[i].length <= key else key < xad[i].offset
    ensures !hit ==> (index - 1 < ENTRY_START <==> BelowFirst(xad, key))
  {
    var base: nat, lim: nat := ENTRY_START, |xad| - ENTRY_START;
    while lim != 0
      invariant ENTRY_START <= base && base + lim <= |xad|
      invariant forall i :: ENTRY_START <= i < base ==> xad[i].offset + xad[i].length <= key
      invariant forall i :: base + lim <= i < |xad| ==> key < xad[i].offset
    {
      var probe := base + lim / 2;
      var cmp := Compare(key, xad[probe]);
      if cmp == 0 {
        return true, probe;
      } else if cmp > 0 {
        base := probe + 1;
        lim := lim - 1;
      }
      lim := lim / 2;
    }
    return false, base;
  }

  // ----- the whole tree

  /** `x` is an entry of a leaf page. */
  ghost predicate InLeaves(t: Page, x: Xad) {
    match t
    case Leaf(xad) => exists i :: ENTRY_START <= i < |xad| && xad[i] == x
    case Internal(_, children) => exists i :: 0 <= i < |children| && InLeaves(children[i], x)
  }

  /** Where the range of the `i`-th child ends. */
  ghost function Limit(xad: seq<Xad>, i: nat, hi: nat): nat
    requires ENTRY_START + i < |xad|
  {
    if ENTRY_START + i + 1 < |xad| then xad[ENTRY_START + i + 1].offset else hi
  }

  /** The tree is for keys from `lo` up to `hi`, and each child for those from its own entry up to the next. */
  ghost predicate WellFormed(t: Page, lo: nat, hi: nat) {
    && Ordered(t.xad)
    && match t
       case Leaf(xad) =>
         forall i :: ENTRY_START <= i < |xad| ==> lo <= xad[i].offset && xad[i].offset + xad[i].length <= hi
       case Internal(xad, children) =>
         && |xad| == ENTRY_START + |children|
         && (forall i :: ENTRY_START <= i < |xad| ==> xad[i].offset <= hi)
         && forall i :: 0 <= i < |children| ==> WellFormed(children[i], LowEnd(xad, i, lo), Limit(xad, i, hi))
  }

  ghost function LowEnd(xad: seq<Xad>, i: nat, lo: nat): nat
    requires ENTRY_START + i < |xad|
  {
    if xad[ENTRY_START + i].offset < lo then lo else xad[ENTRY_START + i].offset
  }

  /** All leaf entries lie in the range of the tree. */
  lemma {:induction false} LeavesInRange(t: Page, lo: nat, hi: nat, x: Xad)
    requires WellFormed(t, lo, hi) && InLeaves(t, x)
    ensures lo <= x.offset && x.offset + x.length <= hi
    decreases t
  {
    if t.Internal? {
      var i :| 0 <= i < |t.children| && InLeaves(t.children[i], x);
      LeavesInRange(t.children[i], LowEnd(t.xad, i, lo), Limit(t.xad, i, hi), x);
    }
  }

  /** The child to descend to: the last one whose entry does not lie behind the key. */
  ghost predicate Chosen(xad: seq<Xad>, key: nat, index: nat) {
    && ENTRY_START <= index < |xad| && xad[index].offset <= key
    && forall i :: index < i < |xad| ==> key < xad[i].offset
  }

  /** No other child has the key. */
  lemma OnlyChosen(t: Page, lo: nat, hi: nat, key: nat, index: nat, x: Xad)
    requires t.Internal? && WellFormed(t, lo, hi) && Chosen(t.xad, key, index) && InLeaves(t, x) && Covers(x, key)
    ensures InLeaves(t.children[index - ENTRY_START], x)
  {
    hide Chosen, LowEnd, Limit;
    var i :| 0 <= i < |t.children| && InLeaves(t.children[i], x);
    LeavesInRange(t.children[i], LowEnd(t.xad, i, lo), Limit(t.xad, i, hi), x);
    if i != index - ENTRY_START {
      ChosenRange(t.xad, lo, hi, key, index, i);
      assert false;
    }
  }

  lemma ChosenRange(xad: seq<Xad>, lo: nat, hi: nat, key: nat, index: nat, i: nat)
    requires Ordered(xad) && Chosen(xad, key, index) && ENTRY_START + i < |xad| && ENTRY_START + i != index
    ensures !(LowEnd(xad, i, lo) <= key < Limit(xad, i, hi))
  {
  }

  /** On the way down to the key there is an internal page with no entry up to the key. */
  ghost predicate Strays(t: Page, key: nat)
    requires ENTRY_START <= |t.xad|
    decreases t
  {
    && t.Internal?
    && (|| BelowFirst(t.xad, key)
        || exists i :: 0 <= i < |t.children| && Chosen(t.xad, key, ENTRY_START + i)
                       && ENTRY_START <= |t.children[i].xad| && Strays(t.children[i], key))
  }

  /** `Stray`: the place descended to belongs to the header of its page. */
  datatype Result = Found(address: nat) | NotFound | Stray

  /** `find_iag`, below the root page: the address the leaf entry for the key gives, if there is one. */
  method Find(root: Page, key: nat, bsize: nat, ghost lo: nat, ghost hi: nat) returns (r: Result)
    requires WellFormed(root, lo, hi)
    ensures r.Found? ==>
              exists x :: InLeaves(root, x) && Covers(x, key) && r.address == (x.address + (key - x.offset)) * bsize
    ensures !r.Found? ==> forall x :: InLeaves(root, x) ==> !Covers(x, key)
    ensures r.Stray? <==> Strays(root, key)
  {
    hide WellFormed, InLeaves, Limit, LowEnd, Chosen, Strays, BelowFirst;
    var page := root;
    ghost var a: nat, b: nat := lo, hi;
    FormOf(page, a, b);
    while true
      invariant WellFormed(page, a, b) && ENTRY_START <= |page.xad|
      invariant forall x :: InLeaves(page, x) ==> InLeaves(root, x)
      invariant forall x :: InLeaves(root, x) && Covers(x, key) ==> InLeaves(page, x)
      invariant Strays(page, key) <==> Strays(root, key)
      decreases page
    {
      FormOf(page, a, b);
      var hit, index := Search(page.xad, key);
      if page.Leaf? {
        LeafEntries(page, key);
        if hit {
          var x := page.xad[index];
          assert InLeaves(page, x);
          return Found((x.address + (key - x.offset)) * bsize);
        }
        return NotFound;
      }
      if !hit {
        index := if index != 0 then index - 1 else index;
      }
      if index < ENTRY_START {
        BelowIsStray(page, a, b, key);
        return Stray;
      }
      Descent(page, a, b, key, index);
      ghost var i := index - ENTRY_START;
      forall x | InLeaves(root, x) && Covers(x, key)
        ensures InLeaves(page.children[i], x)
      {
        OnlyChosen(page, a, b, key, index, x);
      }
      StraysOn(page, a, b, key, index);
      a, b := LowEnd(page.xad, i, a), Limit(page.xad, i, b);
      page := page.children[index - ENTRY_START];
    }
  }

  lemma FormOf(t: Page, lo: nat, hi: nat)
    requires WellFormed(t, lo, hi)
    ensures Ordered(t.xad)
    ensures t.Internal? ==> |t.xad| == ENTRY_START + |t.children|
  {
  }

  lemma LeafEntries(t: Page, key: nat)
    requires t.Leaf? && ENTRY_START <= |t.xad|
    ensures forall x :: InLeaves(t, x) <==> exists i :: ENTRY_START <= i < |t.xad| && t.xad[i] == x
    ensures !Strays(t, key)
  {
  }

  /** No leaf below a page has a key that lies before the entries of the page. */
  lemma BelowIsStray(t: Page, lo: nat, hi: nat, key: nat)
    requires t.Internal? && WellFormed(t, lo, hi) && BelowFirst(t.xad, key)
    ensures Strays(t, key)
    ensures forall x :: InLeaves(t, x) ==> !Covers(x, key)
  {
    forall x | InLeaves(t, x)
      ensures !Covers(x, key)
    {
      var i :| 0 <= i < |t.children| && InLeaves(t.children[i], x);
      LeavesInRange(t.children[i], LowEnd(t.xad, i, lo), Limit(t.xad, i, hi), x);
    }
  }

  /** The child the search leads to is the chosen one, and smaller. */
  lemma Descent(t: Page, lo: nat, hi: nat, key: nat, index: nat)
    requires t.Internal? && WellFormed(t, lo, hi) && ENTRY_START <= index < |t.xad|
    requires Covers(t.xad[index], key) || (forall i :: ENTRY_START <= i < |t.xad| ==>
               if i <= index then t.xad[i].offset + t.xad[i].length <= key else key < t.xad[i].offset)
    ensures Chosen(t.xad, key, index) && !BelowFirst(t.xad, key)
    ensures var i := index - ENTRY_START;
            && WellFormed(t.children[i], LowEnd(t.xad, i, lo), Limit(t.xad, i, hi)) && t.children[i] < t
            && forall x :: InLeaves(t.children[i], x) ==> InLeaves(t, x)
  {
  }

  /** Whether the search strays is decided below the chosen child. */
  lemma StraysOn(t: Page, lo: nat, hi: nat, key: nat, index: nat)
    requires t.Internal? && WellFormed(t, lo, hi) && Chosen(t.xad, key, index) && !BelowFirst(t.xad, key)
    ensures ENTRY_START <= |t.children[index - ENTRY_START].xad|
    ensures Strays(t.children[index - ENTRY_START], key) <==> Strays(t, key)
  {
    hide LowEnd, Limit;
    var k := index - ENTRY_START;
    FormOf(t.children[k], LowEnd(t.xad, k, lo), Limit(t.xad, k, hi));
    if Strays(t, key) {
      var i :| 0 <= i < |t.children| && Chosen(t.xad, key, ENTRY_START + i)
               && ENTRY_START <= |t.children[i].xad| && Strays(t.children[i], key);
      assert i == k;
    }
    assert Chosen(t.xad, key, ENTRY_START + k);
  }

  /** The first entry of every internal page begins where the keys of the page begin. */
  ghost predicate Tight(t: Page, lo: nat, hi: nat)
    requires WellFormed(t, lo, hi)
    decreases t
  {
    t.Internal? ==>
      && t.children != [] && t.xad[ENTRY_START].offset <= lo
      && forall i :: 0 <= i < |t.children| ==> Tight(t.children[i], LowEnd(t.xad, i, lo), Limit(t.xad, i, hi))
  }

  /** In such a tree the search for a key of its range does not stray. */
  lemma {:induction false} TightDoesNotStray(t: Page, lo: nat, hi: nat, key: nat)
    requires WellFormed(t, lo, hi) && Tight(t, lo, hi) && lo <= key
    ensures !Strays(t, key)
    decreases t
  {
    if Strays(t, key) {
      var i :| 0 <= i < |t.children| && Chosen(t.xad, key, ENTRY_START + i)
               && ENTRY_START <= |t.children[i].xad| && Strays(t.children[i], key);
      TightDoesNotStray(t.children[i], LowEnd(t.xad, i, lo), Limit(t.xad, i, hi), key);
    }
  }

  /** A root with one entry, for the keys from 5 on: the search for key 3 descends to a place of the header. */
  lemma StrayExample()
    ensures var header, leaf := Xad(0, 0, 0), Leaf([Xad(0, 0, 0), Xad(0, 0, 0), Xad(5, 1, 7)]);
            var root := Internal([header, header, Xad(5, 1, 9)], [leaf]);
            WellFormed(root, 0, 6) && Strays(root, 3)
  {
    var header, leaf := Xad(0, 0, 0), Leaf([Xad(0, 0, 0), Xad(0, 0, 0), Xad(5, 1, 7)]);
    var root := Internal([header, header, Xad(5, 1, 9)], [leaf]);
    assert WellFormed(leaf, 5, 6);
    assert WellFormed(root, 0, 6);
  }

  /** Two leaf entries of a well-formed tree never cover the same key. */
  lemma {:induction false} OneCovers(t: Page, lo: nat, hi: nat, x: Xad, y: Xad, key: nat)
    requires WellFormed(t, lo, hi) && InLeaves(t, x) && InLeaves(t, y) && Covers(x, key) && Covers(y, key)
    ensures x == y
    decreases t
  {
    hide Limit, LowEnd;
    if t.Internal? {
      var i :| 0 <= i < |t.children| && InLeaves(t.children[i], x);
      LeavesInRange(t.children[i], LowEnd(t.xad, i, lo), Limit(t.xad, i, hi), x);
      var j :| 0 <= j < |t.children| && InLeaves(t.children[j], y);
      LeavesInRange(t.children[j], LowEnd(t.xad, j, lo), Limit(t.xad, j, hi), y);
      RangesApart(t.xad, lo, hi);
      if i == j {
        OneCovers(t.children[i], LowEnd(t.xad, i, lo), Limit(t.xad, i, hi), x, y, key);
      }
    }
  }

  /** A child's range ends before that of a later child begins. */
  lemma RangesApart(xad: seq<Xad>, lo: nat, hi: nat)
    requires Ordered(xad)
    ensures forall i: nat, j: nat :: i < j && ENTRY_START + j < |xad| ==> Limit(xad, i, hi) <= LowEnd(xad, j, lo)
  {
  }
}
