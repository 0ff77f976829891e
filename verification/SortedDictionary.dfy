/** src/f2fs/dict.c: inserting into, searching and walking the dictionary. */
module SortedDictionary {
  import opened RedBlackTree
  import opened Dictionary

  ghost predicate Sorted(ks: seq<int>) {
    forall i, j :: 0 <= i < j < |ks| ==> ks[i] <= ks[j]
  }

  ghost predicate NoRepeats(ks: seq<int>) {
    forall i, j :: 0 <= i < j < |ks| ==> ks[i] != ks[j]
  }

  // ----- where a subtree stands in the order

  /** What a subtree of a sorted tree looks like around its top node. */
  lemma SortedAround(c: Context, t: Tree)
    requires t.Branch? && Sorted(Keys(Plug(c, t)))
    ensures forall k :: k in Keys(t.left) || k in Before(c).1 ==> k <= t.key
    ensures forall k :: k in Keys(t.right) || k in After(c).1 ==> t.key <= k
  {
    hide Plug, Keys, Before, After, Sorted;
    PlugOrder(c, t);
    KeysStep(t);
    Regroup(Before(c).1, Keys(t.left), t.key, Keys(t.right), After(c).1);
    var a, b := Before(c).1 + Keys(t.left), Keys(t.right) + After(c).1;
    SortedSplit(a, t.key, b);
    forall k | k in Keys(t.left) || k in Before(c).1
      ensures k <= t.key
    {
      assert k in a;
    }
    forall k | k in Keys(t.right) || k in After(c).1
      ensures t.key <= k
    {
      assert k in b;
    }
  }

  lemma KeysStep(t: Tree)
    requires t.Branch?
    ensures Keys(t) == Keys(t.left) + [t.key] + Keys(t.right)
    ensures InOrder(t) == InOrder(t.left) + [t.node] + InOrder(t.right)
  {
  }

  lemma Regroup<T>(a: seq<T>, l: seq<T>, k: T, r: seq<T>, b: seq<T>)
    ensures a + (l + [k] + r) + b == (a + l) + [k] + (r + b)
  {
  }

  lemma SortedSplit(a: seq<int>, k: int, b: seq<int>)
    requires Sorted(a + [k] + b)
    ensures forall x :: x in a ==> x <= k
    ensures forall x :: x in b ==> k <= x
  {
    var s := a + [k] + b;
    forall x | x in a
      ensures x <= k
    {
      var i :| 0 <= i < |a| && a[i] == x;
      assert s[i] == x && s[|a|] == k;
    }
    forall x | x in b
      ensures k <= x
    {
      var i :| 0 <= i < |b| && b[i] == x;
      assert s[|a| + 1 + i] == x && s[|a|] == k;
    }
  }

  /** The node on top of a subtree comes right after everything to its left. */
  lemma Position(c: Context, t: Tree)
    requires t.Branch?
    ensures var i := |Before(c).0| + |InOrder(t.left)|;
            i < |InOrder(Plug(c, t))| && InOrder(Plug(c, t))[i] == t.node
    ensures var i := |Before(c).1| + |Keys(t.left)|;
            i < |Keys(Plug(c, t))| && Keys(Plug(c, t))[i] == t.key
  {
    hide Plug, Keys, InOrder, Before, After;
    PlugOrder(c, t);
    KeysStep(t);
    Regroup(Before(c).0, InOrder(t.left), t.node, InOrder(t.right), After(c).0);
    Regroup(Before(c).1, Keys(t.left), t.key, Keys(t.right), After(c).1);
  }

  lemma {:induction false} SameLengths(t: Tree)
    ensures |Keys(t)| == |InOrder(t)|
  {
    if t.Branch? {
      SameLengths(t.left);
      SameLengths(t.right);
    }
  }

  lemma {:induction false} SameLengthsBefore(c: Context)
    ensures |Before(c).0| == |Before(c).1|
  {
    if !c.Top? {
      SameLengthsBefore(c.up);
      if c.InRight? {
        SameLengths(c.sibling);
      }
    }
  }

  lemma BeforeStep(c: Context, t: Tree)
    requires t.Branch?
    ensures Before(InLeft(c, t.node, t.key, t.color, t.right)) == Before(c)
    ensures var b := Before(InRight(c, t.node, t.key, t.color, t.left));
            b.0 == Before(c).0 + InOrder(t.left) + [t.node] && b.1 == Before(c).1 + Keys(t.left) + [t.key]
    ensures After(InRight(c, t.node, t.key, t.color, t.left)) == After(c)
    ensures var a := After(InLeft(c, t.node, t.key, t.color, t.right));
            a.0 == [t.node] + InOrder(t.right) + After(c).0 && a.1 == [t.key] + Keys(t.right) + After(c).1
  {
  }

  /** The index a context gives to the first node of whatever is plugged in. */
  ghost function Index(c: Context): nat {
    |Before(c).0|
  }

  /** Going down or up, in terms of indices. */
  lemma IndexStep(c: Context, t: Tree)
    requires t.Branch?
    ensures Index(InLeft(c, t.node, t.key, t.color, t.right)) == Index(c)
    ensures Index(InRight(c, t.node, t.key, t.color, t.left)) == Index(c) + |InOrder(t.left)| + 1
    ensures |InOrder(t)| == |InOrder(t.left)| + 1 + |InOrder(t.right)|
    ensures Plug(InLeft(c, t.node, t.key, t.color, t.right), t.left) == Plug(c, t)
    ensures Plug(InRight(c, t.node, t.key, t.color, t.left), t.right) == Plug(c, t)
  {
    BeforeStep(c, t);
    KeysStep(t);
  }

  lemma NodeAt(c: Context, t: Tree)
    requires t.Branch?
    ensures var i := Index(c) + |InOrder(t.left)|;
            i < |InOrder(Plug(c, t))| == |Keys(Plug(c, t))| && InOrder(Plug(c, t))[i] == t.node &&
              Keys(Plug(c, t))[i] == t.key
  {
    hide Plug, Keys, InOrder, Before, After;
    Position(c, t);
    SameLengths(t.left);
    SameLengthsBefore(c);
    SameLengths(Plug(c, t));
  }

  // ----- insertion

  /** The keys left of the hole are at most `key`, those right of it are larger. */
  ghost predicate Spot(c: Context, key: int) {
    (forall k :: k in Before(c).1 ==> k <= key) && (forall k :: k in After(c).1 ==> key < k)
  }

  lemma SpotStep(c: Context, t: Tree, key: int)
    requires t.Branch? && Sorted(Keys(Plug(c, t))) && Spot(c, key)
    ensures key < t.key ==> Spot(InLeft(c, t.node, t.key, t.color, t.right), key)
    ensures t.key <= key ==> Spot(InRight(c, t.node, t.key, t.color, t.left), key)
  {
    hide Keys, Plug, Sorted, Before, After;
    SortedAround(c, t);
    BeforeStep(c, t);
  }

  /** The descent of `dict_insert`: equal keys are passed on their right. */
  method Descend(nil: Node, key: int, ghost tree: Tree, ghost all: set<Node>)
    returns (parent: Node, result: int, ghost c: Context)
    requires At(Top, tree, nil.left, nil, nil) && Nodes(tree) == all && Sorted(Keys(tree))
    ensures At(c, Leaf, nil, parent, nil) && ContextNodes(c) == all && Plug(c, Leaf) == tree
    ensures Spot(c, key) && (c.InRight? <==> 0 <= result)
  {
    hide Linked, ContextLinked, Distinct, ContextDistinct, Root, At, NilPoints, Keys, Sorted, Before, After, Spot;
    var where := nil.left;
    ghost var t := tree;
    c, parent, result := Top, nil, -1;
    SpotTop(key);
    LeafIf(c, t, where, parent, nil);
    while where != nil
      invariant At(c, t, where, parent, nil) && Nodes(t) + ContextNodes(c) == all && Plug(c, t) == tree
      invariant Spot(c, key) && (c.InRight? <==> 0 <= result)
      invariant where == nil <==> t.Leaf?
      decreases t
    {
      NodeOf(c, t, where, parent, nil);
      KeyOf(c, t, where, parent, nil);
      SpotStep(c, t, key);
      IndexStep(c, t);
      parent := where;
      result := key - where.key;
      if result < 0 {
        GoLeft(c, t, where, where.parent, nil);
        where := where.left;
        c, t := InLeft(c, t.node, t.key, t.color, t.right), t.left;
      } else {
        GoRight(c, t, where, where.parent, nil);
        where := where.right;
        c, t := InRight(c, t.node, t.key, t.color, t.left), t.right;
      }
      LeafIf(c, t, where, parent, nil);
    }
  }

  lemma SpotTop(key: int)
    ensures Spot(Top, key)
  {
  }

  lemma LeafIf(c: Context, t: Tree, x: Node, p: Node, nil: Node)
    requires At(c, t, x, p, nil)
    ensures x == nil <==> t.Leaf?
  {
  }

  lemma KeyOf(c: Context, t: Tree, x: Node, p: Node, nil: Node)
    requires At(c, t, x, p, nil) && t.Branch?
    ensures t.key == x.key
  {
  }

  /** Hangs a new red node into the spot. */
  method Attach(node: Node, parent: Node, result: int, nil: Node, ghost c: Context, ghost all: set<Node>)
    requires At(c, Leaf, nil, parent, nil) && ContextNodes(c) == all && node !in all && node != nil
    requires c.InRight? <==> 0 <= result
    modifies parent, node
    ensures At(c, Branch(Leaf, node, old(node.key), Red, Leaf), node, node.parent, nil)
  {
    if result < 0 {
      parent.left := node;
    } else {
      parent.right := node;
    }
    node.parent, node.left, node.right, node.color := parent, nil, nil, Red;
  }

  /** `s` with one element more, in place `i`. */
  ghost predicate GainedAt<T>(s: seq<T>, s': seq<T>, i: nat, x: T) {
    i <= |s| && s' == s[..i] + [x] + s[i..]
  }

  lemma HoleFilled(c: Context, n: Node, k: int)
    ensures GainedAt(InOrder(Plug(c, Leaf)), InOrder(Plug(c, Branch(Leaf, n, k, Red, Leaf))), Index(c), n)
    ensures GainedAt(Keys(Plug(c, Leaf)), Keys(Plug(c, Branch(Leaf, n, k, Red, Leaf))), Index(c), k)
  {
    hide Plug, Before, After;
    var t := Branch(Leaf, n, k, Red, Leaf);
    PlugOrder(c, Leaf);
    PlugOrder(c, t);
    SameLengthsBefore(c);
    Filled(Before(c).0, InOrder(t), n, After(c).0);
    Filled(Before(c).1, Keys(t), k, After(c).1);
  }

  lemma Filled<T>(a: seq<T>, t: seq<T>, x: T, b: seq<T>)
    requires t == [x]
    ensures GainedAt(a + [] + b, a + t + b, |a|, x)
  {
    assert a + [] + b == a + b;
  }

  /** A key put where it belongs keeps the order. */
  lemma SpotSorted(c: Context, key: int, ks: seq<int>)
    requires Spot(c, key) && Sorted(Keys(Plug(c, Leaf))) && GainedAt(Keys(Plug(c, Leaf)), ks, Index(c), key)
    ensures Sorted(ks)
    ensures forall j :: 0 <= j < Index(c) ==> Keys(Plug(c, Leaf))[j] <= key
    ensures forall j :: Index(c) <= j < |Keys(Plug(c, Leaf))| ==> key < Keys(Plug(c, Leaf))[j]
    ensures NoRepeats(Keys(Plug(c, Leaf))) && key !in Keys(Plug(c, Leaf)) ==> NoRepeats(ks)
  {
    hide Plug, Keys, Before, After, InOrder;
    PlugOrder(c, Leaf);
    SameLengthsBefore(c);
    LeafKeys();
    var before := Keys(Plug(c, Leaf));
    Sides(Before(c).1, After(c).1, key, before);
    GainedSorted(before, ks, Index(c), key);
    if NoRepeats(before) && key !in before {
      GainedNoRepeats(before, ks, Index(c), key);
    }
  }

  lemma LeafKeys()
    ensures Keys(Leaf) == []
  {
  }

  lemma Sides(a: seq<int>, b: seq<int>, key: int, ks: seq<int>)
    requires ks == a + [] + b
    requires forall k :: k in a ==> k <= key
    requires forall k :: k in b ==> key < k
    ensures forall j :: 0 <= j < |a| ==> ks[j] <= key
    ensures forall j :: |a| <= j < |ks| ==> key < ks[j]
  {
    assert forall j :: 0 <= j < |a| ==> ks[j] == a[j] && a[j] in a;
    assert forall j :: |a| <= j < |ks| ==> ks[j] == b[j - |a|] && b[j - |a|] in b;
  }

  lemma GainedSorted(ks: seq<int>, ks': seq<int>, i: nat, key: int)
    requires Sorted(ks) && GainedAt(ks, ks', i, key)
    requires forall j :: 0 <= j < i ==> ks[j] <= key
    requires forall j :: i <= j < |ks| ==> key < ks[j]
    ensures Sorted(ks')
  {
    forall m, n | 0 <= m < n < |ks'|
      ensures ks'[m] <= ks'[n]
    {
      GainedIndex(ks, ks', i, key, m);
      GainedIndex(ks, ks', i, key, n);
    }
  }

  lemma GainedNoRepeats(ks: seq<int>, ks': seq<int>, i: nat, key: int)
    requires NoRepeats(ks) && GainedAt(ks, ks', i, key) && key !in ks
    ensures NoRepeats(ks')
  {
    forall m, n | 0 <= m < n < |ks'|
      ensures ks'[m] != ks'[n]
    {
      GainedIndex(ks, ks', i, key, m);
      GainedIndex(ks, ks', i, key, n);
    }
  }

  lemma GainedIndex(ks: seq<int>, ks': seq<int>, i: nat, key: int, m: nat)
    requires GainedAt(ks, ks', i, key) && m < |ks'|
    ensures |ks'| == |ks| + 1
    ensures ks'[m] == if m < i then ks[m] else if m == i then key else ks[m - 1]
  {
  }

  // ----- finding a node's place

  /** The subtree with a given node on top. */
  lemma {:induction false} Locate(c: Context, t: Tree, x: Node, p: Node, nil: Node, n: Node)
    returns (c': Context, t': Tree)
    requires At(c, t, x, p, nil) && n in Nodes(t)
    ensures t'.Branch? && t'.node == n && Plug(c', t') == Plug(c, t) && At(c', t', n, n.parent, nil)
    ensures Nodes(t') + ContextNodes(c') == Nodes(t) + ContextNodes(c)
    decreases t
  {
    hide Linked, ContextLinked, Distinct, ContextDistinct, Root, At, NilPoints, Plug, Before, InOrder;
    NodeOf(c, t, x, p, nil);
    IndexStep(c, t);
    if t.node == n {
      c', t' := c, t;
    } else if n in Nodes(t.left) {
      GoLeft(c, t, x, p, nil);
      c', t' := Locate(InLeft(c, t.node, t.key, t.color, t.right), t.left, x.left, x, nil, n);
    } else {
      GoRight(c, t, x, p, nil);
      c', t' := Locate(InRight(c, t.node, t.key, t.color, t.left), t.right, x.right, x, nil, n);
    }
  }

  /** Follows left links to the end: the first node of the subtree. */
  method Leftmost(start: Node, nil: Node, ghost c0: Context, ghost t0: Tree, ghost p: Node, ghost all: set<Node>)
    returns (x: Node)
    requires t0.Branch? && At(c0, t0, start, p, nil) && Nodes(t0) + ContextNodes(c0) == all
    ensures Index(c0) < |InOrder(Plug(c0, t0))| && InOrder(Plug(c0, t0))[Index(c0)] == x
    ensures x in all
  {
    hide Linked, ContextLinked, Distinct, ContextDistinct, Root, At, NilPoints, Plug, InOrder, Index, Keys;
    ghost var c, t, q := c0, t0, p;
    x := start;
    Members(c, t, x, q, nil);
    GoLeft(c, t, x, q, nil);
    while x.left != nil
      invariant t.Branch? && At(c, t, x, q, nil) && Nodes(t) + ContextNodes(c) == all && x in all
      invariant Plug(c, t) == Plug(c0, t0) && Index(c) == Index(c0)
      decreases t
    {
      GoLeft(c, t, x, q, nil);
      IndexStep(c, t);
      c, t := InLeft(c, t.node, t.key, t.color, t.right), t.left;
      LeafIf(c, t, x.left, x, nil);
      q, x := x, x.left;
      Members(c, t, x, q, nil);
    }
    GoLeft(c, t, x, q, nil);
    LeafIf(InLeft(c, t.node, t.key, t.color, t.right), t.left, x.left, x, nil);
    NodeAt(c, t);
    LeafOrder();
  }

  lemma LeafOrder()
    ensures InOrder(Leaf) == []
  {
  }

  /** Follows right links to the end: the last node of the subtree. */
  method Rightmost(start: Node, nil: Node, ghost c0: Context, ghost t0: Tree, ghost p: Node, ghost all: set<Node>)
    returns (x: Node)
    requires t0.Branch? && At(c0, t0, start, p, nil) && Nodes(t0) + ContextNodes(c0) == all
    ensures var i := Index(c0) + |InOrder(t0)| - 1;
            0 <= i < |InOrder(Plug(c0, t0))| && InOrder(Plug(c0, t0))[i] == x
    ensures x in all
  {
    hide Linked, ContextLinked, Distinct, ContextDistinct, Root, At, NilPoints, Plug, InOrder, Index, Keys;
    ghost var c, t, q := c0, t0, p;
    x := start;
    Members(c, t, x, q, nil);
    GoRight(c, t, x, q, nil);
    while x.right != nil
      invariant t.Branch? && At(c, t, x, q, nil) && Nodes(t) + ContextNodes(c) == all && x in all
      invariant Plug(c, t) == Plug(c0, t0) && Index(c) + |InOrder(t)| == Index(c0) + |InOrder(t0)|
      decreases t
    {
      GoRight(c, t, x, q, nil);
      IndexStep(c, t);
      c, t := InRight(c, t.node, t.key, t.color, t.left), t.right;
      LeafIf(c, t, x.right, x, nil);
      q, x := x, x.right;
      Members(c, t, x, q, nil);
    }
    GoRight(c, t, x, q, nil);
    LeafIf(InRight(c, t.node, t.key, t.color, t.left), t.right, x.right, x, nil);
    IndexStep(c, t);
    NodeAt(c, t);
    LeafOrder();
  }

  lemma ParentIn(c: Context, p: Node, nil: Node)
    requires At(c, Leaf, nil, p, nil)
    ensures p == nil || p in ContextNodes(c)
  {
    ContextTop(c, nil, p, nil);
  }

  lemma LeafNodes(t: Tree)
    requires t.Branch? && t.left.Leaf? && t.right.Leaf?
    ensures Nodes(t) == {t.node}
  {
  }

  lemma GainedLength<T>(s: seq<T>, s': seq<T>, i: nat, x: T)
    requires GainedAt(s, s', i, x)
    ensures |s'| == |s| + 1
  {
  }

  lemma SameGained(c: Context, n: Node, k: int, t: Tree)
    requires Same(t, Plug(c, Branch(Leaf, n, k, Red, Leaf)))
    ensures GainedAt(InOrder(Plug(c, Leaf)), InOrder(t), Index(c), n)
    ensures GainedAt(Keys(Plug(c, Leaf)), Keys(t), Index(c), k)
  {
    hide Plug, Keys, InOrder, Index, GainedAt;
    HoleFilled(c, n, k);
  }

  lemma TopNodes()
    ensures ContextNodes(Top) == {}
  {
  }

  /** The nodes from left to right hold the keys from left to right. */
  lemma KeysInOrder(t: Tree, nil: Node)
    requires At(Top, t, nil.left, nil, nil)
    ensures |Keys(t)| == |InOrder(t)|
    ensures forall i :: 0 <= i < |Keys(t)| ==> InOrder(t)[i] in Nodes(t) && InOrder(t)[i].key == Keys(t)[i]
  {
    LinkedKeys(t, nil.left, nil, nil);
  }

  lemma {:induction false} LinkedKeys(t: Tree, x: Node, p: Node, nil: Node)
    requires Linked(t, x, p, nil)
    ensures |Keys(t)| == |InOrder(t)|
    ensures forall i :: 0 <= i < |Keys(t)| ==> InOrder(t)[i] in Nodes(t) && InOrder(t)[i].key == Keys(t)[i]
  {
    if t.Branch? {
      LinkedKeys(t.left, x.left, x, nil);
      LinkedKeys(t.right, x.right, x, nil);
    }
  }

  lemma GainedHere<T>(s: seq<T>, s': seq<T>, i: nat, x: T)
    requires GainedAt(s, s', i, x)
    ensures i < |s'| && s'[i] == x
  {
  }

  /** `dict_insert` on the linked nodes: descent, attachment, repair. */
  method InsertNode(nil: Node, node: Node, key: int, ghost was: Tree, ghost all: set<Node>)
    returns (ghost tree: Tree, ghost i: nat)
    requires At(Top, was, nil.left, nil, nil) && Nodes(was) + {node} == all && node !in Nodes(was) && node != nil
    requires RedBlack(was) && Sorted(Keys(was))
    modifies all, nil
    ensures At(Top, tree, nil.left, nil, nil) && Nodes(tree) == all && node.key == key
    ensures RedBlack(tree) && Sorted(Keys(tree))
    ensures GainedAt(InOrder(was), InOrder(tree), i, node) && GainedAt(Keys(was), Keys(tree), i, key)
    ensures forall j :: 0 <= j < i ==> Keys(was)[j] <= key
    ensures forall j :: i <= j < |Keys(was)| ==> key < Keys(was)[j]
    ensures NoRepeats(Keys(was)) && key !in Keys(was) ==> NoRepeats(Keys(tree))
  {
    hide Linked, ContextLinked, Distinct, ContextDistinct, Root, At, NilPoints, RedBlack, Sorted, Plug, Keys, InOrder;
    hide Fixing, Spot, Index, NoRepeats, Same, GainedAt;
    TopNodes();
    node.key := key;
    ghost var c;
    var parent, result;
    parent, result, c := Descend(nil, key, was, all - {node});
    ParentIn(c, parent, nil);
    Attach(node, parent, result, nil, c, all - {node});
    ghost var leaf := Branch(Leaf, node, key, Red, Leaf);
    ghost var h := InsertStarts(c, node, key);
    LeafNodes(leaf);
    tree := FixUp(node, nil, c, leaf, h, all);
    i := Index(c);
    SameGained(c, node, key, tree);
    SpotSorted(c, key, Keys(tree));
    GainedHere(InOrder(was), InOrder(tree), i, node);
    GainedHere(Keys(was), Keys(tree), i, key);
    KeysInOrder(tree, nil);
  }

  // ----- search

  /** The hole is where `key` would be: everything before is smaller, everything after larger. */
  ghost predicate Narrowed(c: Context, key: int) {
    (forall k :: k in Before(c).1 ==> k < key) && (forall k :: k in After(c).1 ==> key < k)
  }

  lemma NarrowedStep(c: Context, t: Tree, key: int)
    requires t.Branch? && Sorted(Keys(Plug(c, t))) && Narrowed(c, key)
    ensures key < t.key ==> Narrowed(InLeft(c, t.node, t.key, t.color, t.right), key)
    ensures t.key < key ==> Narrowed(InRight(c, t.node, t.key, t.color, t.left), key)
  {
    hide Keys, Plug, Sorted, Before, After;
    SortedAround(c, t);
    BeforeStep(c, t);
  }

  lemma NarrowedEmpty(c: Context, key: int)
    requires Narrowed(c, key)
    ensures key !in Keys(Plug(c, Leaf))
  {
    hide Plug, Before, After;
    PlugOrder(c, Leaf);
  }

  /** All keys before the hole are smaller than `key`. */
  ghost predicate Smaller(c: Context, key: int) {
    forall k :: k in Before(c).1 ==> k < key
  }

  lemma SmallerStep(c: Context, t: Tree, key: int)
    requires t.Branch? && Sorted(Keys(Plug(c, t))) && Smaller(c, key)
    ensures Smaller(InLeft(c, t.node, t.key, t.color, t.right), key)
    ensures t.key < key ==> Smaller(InRight(c, t.node, t.key, t.color, t.left), key)
  {
    hide Keys, Plug, Sorted, Before, After;
    SortedAround(c, t);
    BeforeStep(c, t);
  }

  lemma SmallerKeys(c: Context, t: Tree, key: int)
    requires Smaller(c, key)
    ensures Index(c) <= |Keys(Plug(c, t))|
    ensures forall j :: 0 <= j < Index(c) ==> Keys(Plug(c, t))[j] < key
  {
    hide Plug, Before, After, Keys;
    PlugOrder(c, t);
    SameLengthsBefore(c);
    var b := Before(c).1;
    forall j | 0 <= j < Index(c)
      ensures Keys(Plug(c, t))[j] < key
    {
      assert Keys(Plug(c, t))[j] == b[j] && b[j] in b;
    }
  }

  /** Keys left of a matching node are at most `key`. */
  lemma AtMost(ks: seq<int>, i: nat, j: nat)
    requires Sorted(ks) && j <= i < |ks|
    ensures ks[j] <= ks[i]
  {
  }

  /** The innermost loop of `dict_lookup`: below the left child of a match, the next match, if there is one. */
  method NextMatch(start: Node, nil: Node, key: int, ghost c0: Context, ghost t0: Tree, ghost p: Node,
                   ghost all: set<Node>, ghost i: nat)
    returns (root: Node, ghost c: Context, ghost t: Tree, ghost q: Node)
    requires At(c0, t0, start, p, nil) && Nodes(t0) + ContextNodes(c0) == all
    requires Sorted(Keys(Plug(c0, t0))) && Smaller(c0, key)
    requires i == Index(c0) + |InOrder(t0)| && i < |Keys(Plug(c0, t0))| && Keys(Plug(c0, t0))[i] == key
    ensures At(c, t, root, q, nil) && Nodes(t) + ContextNodes(c) == all && Plug(c, t) == Plug(c0, t0)
    ensures (root != nil <==> t.Branch?) && (t.Branch? ==> t.key == key && t.node == root)
    ensures Smaller(c, key) && (t.Leaf? ==> i == Index(c)) && |InOrder(t)| <= |InOrder(t0)|
  {
    hide Linked, ContextLinked, Distinct, ContextDistinct, Root, At, NilPoints, Plug, InOrder, Index, Keys, Sorted;
    hide Smaller;
    root := start;
    c, t, q := c0, t0, p;
    ghost var tree := Plug(c0, t0);
    LeafIf(c, t, root, q, nil);
    MatchOf(c, t, root, q, nil);
    LeafOrder();
    while root != nil && root.key != key
      invariant At(c, t, root, q, nil) && Nodes(t) + ContextNodes(c) == all && Plug(c, t) == tree
      invariant root != nil <==> t.Branch?
      invariant t.Branch? ==> t.node == root && t.key == root.key
      invariant i == Index(c) + |InOrder(t)| && |InOrder(t)| <= |InOrder(t0)| && Smaller(c, key)
      decreases t
    {
      NodeAt(c, t);
      IndexStep(c, t);
      AtMost(Keys(tree), i, Index(c) + |InOrder(t.left)|);
      GoRight(c, t, root, q, nil);
      SmallerStep(c, t, key);
      q, root := root, root.right;
      c, t := InRight(c, t.node, t.key, t.color, t.left), t.right;
      LeafIf(c, t, root, q, nil);
      MatchOf(c, t, root, q, nil);
    }
  }

  /** The inner loops of `dict_lookup`: from a match, the leftmost match. */
  method LeftmostMatch(start: Node, nil: Node, key: int, ghost c0: Context, ghost t0: Tree, ghost p: Node,
                       ghost all: set<Node>)
    returns (saved: Node, ghost i: nat)
    requires t0.Branch? && t0.key == key && At(c0, t0, start, p, nil) && Nodes(t0) + ContextNodes(c0) == all
    requires Sorted(Keys(Plug(c0, t0))) && Smaller(c0, key)
    ensures var tree := Plug(c0, t0);
            && i < |InOrder(tree)| == |Keys(tree)| && InOrder(tree)[i] == saved && Keys(tree)[i] == key
            && forall j :: 0 <= j < i ==> Keys(tree)[j] < key
  {
    hide Linked, ContextLinked, Distinct, ContextDistinct, Root, At, NilPoints, Plug, InOrder, Index, Keys, Sorted;
    hide Smaller;
    ghost var c, t, q := c0, t0, p;
    var root := start;
    saved := start;
    i := Index(c) + |InOrder(t.left)|;
    ghost var tree := Plug(c0, t0);
    NodeAt(c, t);
    GoLeft(c, t, root, q, nil);
    LeafIf(c, t, root, q, nil);
    while root != nil
      invariant At(c, t, root, q, nil) && Nodes(t) + ContextNodes(c) == all && Plug(c, t) == tree
      invariant root != nil <==> t.Branch?
      invariant t.Branch? ==> t.key == key && t.node == root
      invariant t.Leaf? ==> i == Index(c)
      invariant Smaller(c, key)
      invariant i < |InOrder(tree)| == |Keys(tree)| && InOrder(tree)[i] == saved && Keys(tree)[i] == key
      decreases |InOrder(t)|
    {
      saved := root;
      NodeAt(c, t);
      i := Index(c) + |InOrder(t.left)|;
      GoLeft(c, t, root, q, nil);
      SmallerStep(c, t, key);
      IndexStep(c, t);
      q, root := root, root.left;
      c, t := InLeft(c, t.node, t.key, t.color, t.right), t.left;
      root, c, t, q := NextMatch(root, nil, key, c, t, q, all, i);
    }
    SmallerKeys(c, t, key);
  }

  lemma MatchOf(c: Context, t: Tree, x: Node, p: Node, nil: Node)
    requires At(c, t, x, p, nil)
    ensures t.Branch? ==> t.node == x && t.key == x.key
  {
  }

  /** `dict_lookup` on the linked nodes. */
  method LookupNode(nil: Node, key: int, dupes: bool, ghost tree: Tree, ghost all: set<Node>)
    returns (found: Node?, ghost i: nat)
    requires At(Top, tree, nil.left, nil, nil) && Nodes(tree) == all
    requires Sorted(Keys(tree)) && (dupes || NoRepeats(Keys(tree)))
    ensures found == null <==> key !in Keys(tree)
    ensures found != null ==>
              i < |InOrder(tree)| == |Keys(tree)| && InOrder(tree)[i] == found && Keys(tree)[i] == key
    ensures found != null ==> forall j :: 0 <= j < i ==> Keys(tree)[j] < key
  {
    hide Linked, ContextLinked, Distinct, ContextDistinct, Root, At, NilPoints, InOrder, Index, Keys, Sorted;
    hide Narrowed, NoRepeats;
    var root := nil.left;
    ghost var c, t, p := Top, tree, nil;
    i := 0;
    NarrowedTop(key);
    TopNodes();
    LeafIf(c, t, root, p, nil);
    MatchOf(c, t, root, p, nil);
    while root != nil
      invariant At(c, t, root, p, nil) && Nodes(t) + ContextNodes(c) == all && Plug(c, t) == tree
      invariant root != nil <==> t.Branch?
      invariant t.Branch? ==> t.node == root && t.key == root.key
      invariant Narrowed(c, key)
      decreases t
    {
      NarrowedStep(c, t, key);
      IndexStep(c, t);
      GoLeft(c, t, root, p, nil);
      GoRight(c, t, root, p, nil);
      if key < root.key {
        p, root := root, root.left;
        c, t := InLeft(c, t.node, t.key, t.color, t.right), t.left;
      } else if key > root.key {
        p, root := root, root.right;
        c, t := InRight(c, t.node, t.key, t.color, t.left), t.right;
      } else {
        NodeAt(c, t);
        NarrowedIsSmaller(c, key);
        if !dupes {
          i := Index(c) + |InOrder(t.left)|;
          UniqueMatch(Keys(tree), i, key);
          return root, i;
        }
        found, i := LeftmostMatch(root, nil, key, c, t, p, all);
        return;
      }
      LeafIf(c, t, root, p, nil);
      MatchOf(c, t, root, p, nil);
    }
    NarrowedEmpty(c, key);
    found := null;
  }

  lemma NarrowedTop(key: int)
    ensures Narrowed(Top, key)
  {
  }

  lemma NarrowedIsSmaller(c: Context, key: int)
    requires Narrowed(c, key)
    ensures Smaller(c, key)
  {
  }

  lemma UniqueMatch(ks: seq<int>, i: nat, key: int)
    requires Sorted(ks) && NoRepeats(ks) && i < |ks| && ks[i] == key
    ensures key in ks && forall j :: 0 <= j < i ==> ks[j] < key
  {
  }

  // ----- walking in order

  lemma TreeSize(t: Tree)
    ensures t.Leaf? <==> |InOrder(t)| == 0
    ensures Index(Top) == 0 && Plug(Top, t) == t
  {
  }

  /** The subtree whose top is the `i`-th node. */
  lemma Whereabouts(tree: Tree, nil: Node, i: nat) returns (c: Context, t: Tree)
    requires At(Top, tree, nil.left, nil, nil) && i < |InOrder(tree)|
    ensures t.Branch? && t.node == InOrder(tree)[i] && Plug(c, t) == tree && At(c, t, t.node, t.node.parent, nil)
    ensures Nodes(t) + ContextNodes(c) == Nodes(tree)
    ensures i == Index(c) + |InOrder(t.left)|
  {
    KeysInOrder(tree, nil);
    c, t := Locate(Top, tree, nil.left, nil, nil, InOrder(tree)[i]);
    NodeAt(c, t);
    OrderDistinct(tree, i, Index(c) + |InOrder(t.left)|);
  }

  lemma OrderDistinct(t: Tree, i: nat, j: nat)
    requires Distinct(t) && i < |InOrder(t)| && j < |InOrder(t)| && InOrder(t)[i] == InOrder(t)[j]
    ensures i == j
  {
    if t.Branch? {
      var m := |InOrder(t.left)|;
      OrderNodes(t.left);
      OrderNodes(t.right);
      if i < m && j < m {
        OrderDistinct(t.left, i, j);
      } else if i > m && j > m {
        OrderDistinct(t.right, i - m - 1, j - m - 1);
      }
    }
  }

  lemma {:induction false} OrderNodes(t: Tree)
    ensures forall i :: 0 <= i < |InOrder(t)| ==> InOrder(t)[i] in Nodes(t)
  {
    if t.Branch? {
      OrderNodes(t.left);
      OrderNodes(t.right);
    }
  }

  /** `dict_next` from the node on top of `t0`. */
  method NextNode(start: Node, nil: Node, ghost c0: Context, ghost t0: Tree, ghost all: set<Node>) returns (next: Node?)
    requires t0.Branch? && At(c0, t0, start, start.parent, nil) && Nodes(t0) + ContextNodes(c0) == all
    ensures var s := InOrder(Plug(c0, t0)); var i := Index(c0) + |InOrder(t0.left)|;
            next == if i + 1 < |s| then s[i + 1] else null
  {
    hide Linked, ContextLinked, Distinct, ContextDistinct, Root, At, NilPoints, Plug, InOrder, Index, Keys;
    ghost var tree, i := Plug(c0, t0), Index(c0) + |InOrder(t0.left)|;
    var curr := start;
    GoRight(c0, t0, curr, curr.parent, nil);
    IndexStep(c0, t0);
    ghost var c, t := InRight(c0, t0.node, t0.key, t0.color, t0.left), t0.right;
    LeafIf(c, t, curr.right, curr, nil);
    if curr.right != nil {
      next := Leftmost(curr.right, nil, c, t, curr, all);
      return;
    }
    LeafOrder();
    c, t := c0, t0;
    var parent := curr.parent;
    TopIf(c, t, curr, parent, nil);
    while parent != nil && curr == parent.right
      invariant At(c, t, curr, parent, nil) && Nodes(t) + ContextNodes(c) == all && Plug(c, t) == tree
      invariant t.Branch? && Index(c) + |InOrder(t)| == i + 1
      invariant parent == nil <==> c.Top?
      decreases c
    {
      SideOf(c, t, curr, parent, nil);
      GoUp(c, t, curr, parent, nil);
      IndexStep(c.up, Around(c, t));
      c, t := c.up, Around(c, t);
      curr, parent := parent, parent.parent;
      TopIf(c, t, curr, parent, nil);
    }
    if parent == nil {
      TopIndex(t);
      return null;
    }
    SideOf(c, t, curr, parent, nil);
    GoUp(c, t, curr, parent, nil);
    IndexStep(c.up, Around(c, t));
    NodeAt(c.up, Around(c, t));
    next := parent;
  }

  lemma TopIf(c: Context, t: Tree, x: Node, p: Node, nil: Node)
    requires At(c, t, x, p, nil)
    ensures p == nil <==> c.Top?
  {
  }

  lemma TopIndex(t: Tree)
    ensures Index(Top) == 0 && Plug(Top, t) == t
  {
  }

  /** `dict_prev` from the node on top of `t0`. */
  method PrevNode(start: Node, nil: Node, ghost c0: Context, ghost t0: Tree, ghost all: set<Node>) returns (prev: Node?)
    requires t0.Branch? && At(c0, t0, start, start.parent, nil) && Nodes(t0) + ContextNodes(c0) == all
    ensures var s := InOrder(Plug(c0, t0)); var i := Index(c0) + |InOrder(t0.left)|;
            i <= |s| && prev == if i == 0 then null else s[i - 1]
  {
    hide Linked, ContextLinked, Distinct, ContextDistinct, Root, At, NilPoints, Plug, InOrder, Index, Keys;
    ghost var tree, i := Plug(c0, t0), Index(c0) + |InOrder(t0.left)|;
    var curr := start;
    NodeAt(c0, t0);
    GoLeft(c0, t0, curr, curr.parent, nil);
    IndexStep(c0, t0);
    ghost var c, t := InLeft(c0, t0.node, t0.key, t0.color, t0.right), t0.left;
    LeafIf(c, t, curr.left, curr, nil);
    if curr.left != nil {
      prev := Rightmost(curr.left, nil, c, t, curr, all);
      return;
    }
    LeafOrder();
    c, t := c0, t0;
    var parent := curr.parent;
    TopIf(c, t, curr, parent, nil);
    while parent != nil && curr == parent.left
      invariant At(c, t, curr, parent, nil) && Nodes(t) + ContextNodes(c) == all && Plug(c, t) == tree
      invariant t.Branch? && Index(c) == i
      invariant parent == nil <==> c.Top?
      decreases c
    {
      SideOf(c, t, curr, parent, nil);
      GoUp(c, t, curr, parent, nil);
      IndexStep(c.up, Around(c, t));
      c, t := c.up, Around(c, t);
      curr, parent := parent, parent.parent;
      TopIf(c, t, curr, parent, nil);
    }
    if parent == nil {
      TopIndex(t);
      return null;
    }
    SideOf(c, t, curr, parent, nil);
    GoUp(c, t, curr, parent, nil);
    IndexStep(c.up, Around(c, t));
    NodeAt(c.up, Around(c, t));
    prev := parent;
  }

  // ----- the dictionary

  class Dict {
    const nil: Node
    var nodecount: nat
    var dupes: bool
    ghost var tree: Tree
    ghost var repr: set<Node>

    ghost predicate Valid()
      reads this, repr, nil
    {
      && repr == Nodes(tree) && At(Top, tree, nil.left, nil, nil)
      && RedBlack(tree) && Sorted(Keys(tree)) && (dupes || NoRepeats(Keys(tree)))
      && nodecount == |InOrder(tree)|
    }

    /** `dict_init` */
    constructor ()
      ensures Valid() && fresh(nil) && InOrder(tree) == [] && !dupes
    {
      nil := new Node();
      nodecount, dupes, tree, repr := 0, false, Leaf, {};
      assert Balanced(Leaf, 0);
    }

    /** `dict_insert`: the node comes after the nodes with smaller or equal keys
        and before those with larger keys; all else stays in order. */
    method Insert(node: Node, key: int) returns (ghost i: nat)
      requires Valid() && node !in repr && node != nil
      requires dupes || key !in Keys(tree)
      modifies this`nodecount, this`tree, this`repr, repr, nil, node
      ensures Valid() && repr == old(repr) + {node} && nodecount == old(nodecount) + 1 && node.key == key
      ensures GainedAt(old(InOrder(tree)), InOrder(tree), i, node)
      ensures GainedAt(old(Keys(tree)), Keys(tree), i, key)
      ensures forall j :: 0 <= j < i ==> old(Keys(tree))[j] <= key
      ensures forall j :: i <= j < |old(Keys(tree))| ==> key < old(Keys(tree))[j]
    {
      hide Linked, ContextLinked, Distinct, ContextDistinct, Root, At, NilPoints, RedBlack, Sorted, Keys, InOrder;
      hide NoRepeats, GainedAt, Nodes, ContextNodes;
      ghost var was := tree;
      TopNodes();
      repr := repr + {node};
      tree, i := InsertNode(nil, node, key, was, repr);
      nodecount := nodecount + 1;
      GainedLength(InOrder(was), InOrder(tree), i, node);
    }

    /** `dict_allow_dupes` */
    method AllowDupes()
      requires Valid()
      modifies this`dupes
      ensures Valid() && dupes
    {
      dupes := true;
    }

    /** `dict_lookup`: finds a node exactly when the key is there, and with
        duplicates the first one in order. */
    method Lookup(key: int) returns (found: Node?, ghost i: nat)
      requires Valid()
      ensures found == null <==> key !in Keys(tree)
      ensures found != null ==>
                i < |InOrder(tree)| == |Keys(tree)| && InOrder(tree)[i] == found && Keys(tree)[i] == key
      ensures found != null ==> forall j :: 0 <= j < i ==> Keys(tree)[j] < key
    {
      found, i := LookupNode(nil, key, dupes, tree, repr);
    }

    /** `dict_first` */
    method First() returns (first: Node?)
      requires Valid()
      ensures first == if nodecount == 0 then null else InOrder(tree)[0]
    {
      hide Linked, ContextLinked, Distinct, ContextDistinct, Root, NilPoints, RedBlack, Sorted, Keys, At;
      var root := nil.left;
      LeafIf(Top, tree, root, nil, nil);
      TopNodes();
      TreeSize(tree);
      if root == nil {
        return null;
      }
      first := Leftmost(root, nil, Top, tree, nil, repr);
    }

    /** `dict_last` */
    method Last() returns (last: Node?)
      requires Valid()
      ensures last == if nodecount == 0 then null else InOrder(tree)[nodecount - 1]
    {
      hide Linked, ContextLinked, Distinct, ContextDistinct, Root, NilPoints, RedBlack, Sorted, Keys, At;
      var root := nil.left;
      LeafIf(Top, tree, root, nil, nil);
      TopNodes();
      TreeSize(tree);
      if root == nil {
        return null;
      }
      last := Rightmost(root, nil, Top, tree, nil, repr);
    }

    /** `dict_next` */
    method Next(curr: Node, ghost i: nat) returns (next: Node?)
      requires Valid() && i < nodecount && InOrder(tree)[i] == curr
      ensures next == if i + 1 < nodecount then InOrder(tree)[i + 1] else null
    {
      hide Linked, ContextLinked, Distinct, ContextDistinct, Root, NilPoints, RedBlack, Sorted, Keys, At, InOrder;
      ghost var c, t := Whereabouts(tree, nil, i);
      next := NextNode(curr, nil, c, t, repr);
    }

    /** `dict_prev` */
    method Prev(curr: Node, ghost i: nat) returns (prev: Node?)
      requires Valid() && i < nodecount && InOrder(tree)[i] == curr
      ensures prev == if i == 0 then null else InOrder(tree)[i - 1]
    {
      hide Linked, ContextLinked, Distinct, ContextDistinct, Root, NilPoints, RedBlack, Sorted, Keys, At, InOrder;
      ghost var c, t := Whereabouts(tree, nil, i);
      prev := PrevNode(curr, nil, c, t, repr);
    }
  }

  /** Once duplicates are allowed every key can be inserted, and a key inserted again is still found at its first
      node. */
  method InsertAgain(d: Dict, node: Node, key: int) returns (before: Node?, after: Node?)
    requires d.Valid() && node !in d.repr && node != d.nil
    modifies d, d.repr, d.nil, node
    ensures d.Valid() && d.dupes && d.nodecount == old(d.nodecount) + 1
    ensures before == null <==> key !in old(Keys(d.tree))
    ensures after == if before == null then node else before
  {
    hide At, RedBlack, Sorted, NoRepeats, Keys, InOrder, Nodes;
    ghost var i0, i, i1;
    before, i0 := d.Lookup(key);
    d.AllowDupes();
    ghost var keys, nodes := Keys(d.tree), InOrder(d.tree);
    i := d.Insert(node, key);
    after, i1 := d.Lookup(key);
    if before == null {
      assert forall j :: 0 <= j < i ==> keys[j] in keys && keys[j] < key;
    }
    FirstKept(keys, Keys(d.tree), i, key, if before == null then i else i0);
    SameAt(nodes, InOrder(d.tree), i, node, if before == null then i else i0);
  }

  /** Where a key is first after it was put behind the keys that are not larger. */
  lemma FirstKept(ks: seq<int>, ks': seq<int>, i: nat, key: int, first: nat)
    requires GainedAt(ks, ks', i, key) && first <= i
    requires forall j :: 0 <= j < first ==> ks[j] < key
    requires first < i ==> ks[first] == key
    ensures first < |ks'| && ks'[first] == key && forall j :: 0 <= j < first ==> ks'[j] < key
  {
  }

  lemma SameAt<T>(s: seq<T>, s': seq<T>, i: nat, x: T, k: nat)
    requires GainedAt(s, s', i, x) && k <= i
    ensures k < |s'| && s'[k] == if k < i then s[k] else x
  {
  }
}
