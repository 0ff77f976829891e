/** Red-black trees with a hole: the values that describe what the nodes of a dictionary
    form while an insertion is under way. */
module RedBlackTree {

  datatype Color = Red | Black

  /** A node of the dictionary.  Links to "nothing" go to the dictionary's nil node. */
  class Node {
    var left: Node
    var right: Node
    var parent: Node
    var color: Color
    var key: int

    constructor ()
      ensures left == this && right == this && parent == this
      ensures color == Black
    {
      left, right, parent := this, this, this;
      color, key := Black, 0;
    }
  }

  datatype Tree = Leaf | Branch(left: Tree, node: Node, key: int, color: Color, right: Tree)

  /** A tree with one subtree taken out; `up` is what is above the node the hole is under. */
  datatype Context =
    | Top
    | InLeft(up: Context, node: Node, key: int, color: Color, sibling: Tree)
    | InRight(up: Context, node: Node, key: int, color: Color, sibling: Tree)

  ghost function Plug(c: Context, t: Tree): Tree {
    match c
    case Top => t
    case InLeft(up, n, k, col, s) => Plug(up, Branch(t, n, k, col, s))
    case InRight(up, n, k, col, s) => Plug(up, Branch(s, n, k, col, t))
  }

  ghost function Nodes(t: Tree): set<Node> {
    match t
    case Leaf => {}
    case Branch(l, n, _, _, r) => Nodes(l) + {n} + Nodes(r)
  }

  ghost function ContextNodes(c: Context): set<Node> {
    match c
    case Top => {}
    case InLeft(up, n, _, _, s) => ContextNodes(up) + {n} + Nodes(s)
    case InRight(up, n, _, _, s) => ContextNodes(up) + {n} + Nodes(s)
  }

  /** The nodes from left to right. */
  ghost function InOrder(t: Tree): seq<Node> {
    match t
    case Leaf => []
    case Branch(l, n, _, _, r) => InOrder(l) + [n] + InOrder(r)
  }

  /** The keys from left to right. */
  ghost function Keys(t: Tree): seq<int> {
    match t
    case Leaf => []
    case Branch(l, _, k, _, r) => Keys(l) + [k] + Keys(r)
  }

  ghost function Before(c: Context): (seq<Node>, seq<int>) {
    match c
    case Top => ([], [])
    case InLeft(up, _, _, _, _) => Before(up)
    case InRight(up, n, k, _, s) => (Before(up).0 + InOrder(s) + [n], Before(up).1 + Keys(s) + [k])
  }

  ghost function After(c: Context): (seq<Node>, seq<int>) {
    match c
    case Top => ([], [])
    case InLeft(up, n, k, _, s) => ([n] + InOrder(s) + After(up).0, [k] + Keys(s) + After(up).1)
    case InRight(up, _, _, _, _) => After(up)
  }

  lemma {:induction false} PlugOrder(c: Context, t: Tree)
    ensures InOrder(Plug(c, t)) == Before(c).0 + InOrder(t) + After(c).0
    ensures Keys(Plug(c, t)) == Before(c).1 + Keys(t) + After(c).1
  {
    match c
    case Top =>
      assert Before(c).0 + InOrder(t) + After(c).0 == InOrder(t);
      assert Before(c).1 + Keys(t) + After(c).1 == Keys(t);
    case InLeft(up, n, k, col, s) =>
      PlugOrder(up, Branch(t, n, k, col, s));
      PlugLeft(Before(up).0, InOrder(t), n, InOrder(s), After(up).0);
      PlugLeft(Before(up).1, Keys(t), k, Keys(s), After(up).1);
    case InRight(up, n, k, col, s) =>
      PlugOrder(up, Branch(s, n, k, col, t));
      PlugRight(Before(up).0, InOrder(s), n, InOrder(t), After(up).0);
      PlugRight(Before(up).1, Keys(s), k, Keys(t), After(up).1);
  }

  lemma PlugLeft<T>(a: seq<T>, t: seq<T>, n: T, s: seq<T>, b: seq<T>)
    ensures a + (t + [n] + s) + b == a + t + ([n] + s + b)
  {
  }

  lemma PlugRight<T>(a: seq<T>, s: seq<T>, n: T, t: seq<T>, b: seq<T>)
    ensures a + (s + [n] + t) + b == (a + s + [n]) + t + b
  {
  }

  // ----- the red-black properties

  predicate IsRed(t: Tree) {
    t.Branch? && t.color == Red
  }

  ghost predicate NoRedRed(t: Tree) {
    match t
    case Leaf => true
    case Branch(l, _, _, col, r) =>
      NoRedRed(l) && NoRedRed(r) && (col == Red ==> !IsRed(l) && !IsRed(r))
  }

  /** Every path down has `h` black nodes. */
  ghost predicate Balanced(t: Tree, h: nat) {
    match t
    case Leaf => h == 0
    case Branch(l, _, _, Red, r) => Balanced(l, h) && Balanced(r, h)
    case Branch(l, _, _, Black, r) => 0 < h && Balanced(l, h - 1) && Balanced(r, h - 1)
  }

  predicate RedAbove(c: Context) {
    !c.Top? && c.color == Red
  }

  /** No red node of the context has a red child outside the hole. */
  ghost predicate ContextNoRedRed(c: Context) {
    c.Top? ||
    (NoRedRed(c.sibling) && (c.color == Red ==> !IsRed(c.sibling) && !RedAbove(c.up)) && ContextNoRedRed(c.up))
  }

  /** A subtree of black height `h` fits the hole. */
  ghost predicate ContextBalanced(c: Context, h: nat) {
    c.Top? ||
    (Balanced(c.sibling, h) && ContextBalanced(c.up, if c.color == Black then h + 1 else h))
  }

  /** The root, where it belongs to the context, is black. */
  ghost predicate RootBlack(c: Context) {
    c.Top? || (c.up.Top? && c.color == Black) || (!c.up.Top? && RootBlack(c.up))
  }

  ghost predicate RedBlack(t: Tree) {
    NoRedRed(t) && !IsRed(t) && exists h: nat :: Balanced(t, h)
  }

  lemma {:induction false} PlugNoRedRed(c: Context, t: Tree)
    ensures NoRedRed(Plug(c, t)) <==> NoRedRed(t) && ContextNoRedRed(c) && !(RedAbove(c) && IsRed(t))
  {
    match c
    case Top =>
    case InLeft(up, n, k, col, s) => PlugNoRedRed(up, Branch(t, n, k, col, s));
    case InRight(up, n, k, col, s) => PlugNoRedRed(up, Branch(s, n, k, col, t));
  }

  lemma {:induction false} PlugBalanced(c: Context, t: Tree, h: nat) returns (total: nat)
    requires Balanced(t, h) && ContextBalanced(c, h)
    ensures Balanced(Plug(c, t), total)
  {
    match c
    case Top => total := h;
    case InLeft(up, n, k, col, s) =>
      total := PlugBalanced(up, Branch(t, n, k, col, s), if col == Black then h + 1 else h);
    case InRight(up, n, k, col, s) =>
      total := PlugBalanced(up, Branch(s, n, k, col, t), if col == Black then h + 1 else h);
  }

  /** A balanced tree determines the height its contexts need. */
  lemma {:induction false} UnplugBalanced(c: Context, t: Tree, total: nat) returns (h: nat)
    requires Balanced(Plug(c, t), total)
    ensures Balanced(t, h) && ContextBalanced(c, h)
  {
    match c
    case Top => h := total;
    case InLeft(up, n, k, col, s) =>
      var h' := UnplugBalanced(up, Branch(t, n, k, col, s), total);
      h := if col == Black then h' - 1 else h';
    case InRight(up, n, k, col, s) =>
      var h' := UnplugBalanced(up, Branch(s, n, k, col, t), total);
      h := if col == Black then h' - 1 else h';
  }

  lemma {:induction false} UnplugRoot(c: Context, t: Tree)
    requires !IsRed(Plug(c, t))
    ensures RootBlack(c)
  {
    match c
    case Top =>
    case InLeft(up, n, k, col, s) => UnplugRoot(up, Branch(t, n, k, col, s));
    case InRight(up, n, k, col, s) => UnplugRoot(up, Branch(s, n, k, col, t));
  }

  // ----- the repair after an insertion

  /** The subtree that a hole and its parent belong to. */
  ghost function Around(c: Context, t: Tree): (r: Tree)
    requires !c.Top?
    ensures r.Branch?
  {
    if c.InLeft? then Branch(t, c.node, c.key, c.color, c.sibling)
    else Branch(c.sibling, c.node, c.key, c.color, t)
  }

  ghost predicate Same(t: Tree, u: Tree) {
    InOrder(t) == InOrder(u) && Keys(t) == Keys(u)
  }

  lemma PlugSame(c: Context, t: Tree, u: Tree)
    requires Same(t, u)
    ensures Same(Plug(c, t), Plug(c, u))
  {
    PlugOrder(c, t);
    PlugOrder(c, u);
  }

  /** All is well but, possibly, that the red subtree hangs under a red node. */
  ghost predicate Fixing(c: Context, t: Tree, h: nat) {
    && IsRed(t) && NoRedRed(t) && Balanced(t, h)
    && ContextBalanced(c, h) && ContextNoRedRed(c) && RootBlack(c)
  }

  /** All is well but, possibly, that the root is red. */
  ghost predicate Fixed(c: Context, t: Tree, h: nat) {
    && NoRedRed(t) && Balanced(t, h)
    && ContextBalanced(c, h) && ContextNoRedRed(c) && RootBlack(c)
    && !(RedAbove(c) && IsRed(t))
  }

  /** What surrounds a red node with a red parent. */
  lemma RedParent(c: Context, t: Tree, h: nat)
    requires Fixing(c, t, h) && RedAbove(c)
    ensures !c.up.Top? && c.up.color == Black
    ensures NoRedRed(c.sibling) && !IsRed(c.sibling) && Balanced(c.sibling, h)
    ensures NoRedRed(c.up.sibling) && Balanced(c.up.sibling, h)
    ensures ContextBalanced(c.up.up, h + 1) && ContextNoRedRed(c.up.up) && RootBlack(c.up.up)
  {
    assert ContextNoRedRed(c.up) && ContextBalanced(c.up, h) && RootBlack(c.up);
  }

  /** The grandparent's subtree after a red uncle was found. */
  ghost function Recolored(c: Context, t: Tree): (r: Tree)
    requires !c.Top? && !c.up.Top? && c.up.sibling.Branch?
    ensures r.Branch?
  {
    var u := c.up.(color := Red, sibling := c.up.sibling.(color := Black));
    Around(u, Around(c.(color := Black), t))
  }

  lemma RecolorFixes(c: Context, t: Tree, h: nat)
    requires Fixing(c, t, h) && RedAbove(c)
    requires !c.up.Top? && IsRed(c.up.sibling)
    ensures Fixing(c.up.up, Recolored(c, t), h + 1)
    ensures Same(Recolored(c, t), Around(c.up, Around(c, t)))
  {
    RedParent(c, t, h);
  }

  /** A red node whose child on one side only is red, too. */
  ghost predicate LeftHeavy(p: Tree, h: nat) {
    && IsRed(p) && IsRed(p.left) && NoRedRed(p.left)
    && NoRedRed(p.right) && !IsRed(p.right) && Balanced(p, h)
  }

  ghost predicate RightHeavy(p: Tree, h: nat) {
    && IsRed(p) && IsRed(p.right) && NoRedRed(p.right)
    && NoRedRed(p.left) && !IsRed(p.left) && Balanced(p, h)
  }

  /** `rotate_left` and `rotate_right` on values. */
  ghost function RotatedLeft(t: Tree): Tree
    requires t.Branch? && t.right.Branch?
  {
    Branch(Branch(t.left, t.node, t.key, t.color, t.right.left),
           t.right.node, t.right.key, t.right.color, t.right.right)
  }

  ghost function RotatedRight(t: Tree): Tree
    requires t.Branch? && t.left.Branch?
  {
    Branch(t.left.left, t.left.node, t.left.key, t.left.color, Branch(t.left.right, t.node, t.key, t.color, t.right))
  }

  lemma RotateAssociates<T>(a: seq<T>, x: T, b: seq<T>, y: T, c: seq<T>)
    ensures (a + [x] + b) + [y] + c == a + [x] + (b + [y] + c)
  {
  }

  /** Rotations keep the order of the nodes and keys. */
  lemma RotationsKeepOrder(t: Tree)
    ensures t.Branch? && t.right.Branch? ==> Same(RotatedLeft(t), t)
    ensures t.Branch? && t.left.Branch? ==> Same(RotatedRight(t), t)
  {
    if t.Branch? && t.right.Branch? {
      var s := t.right;
      RotateAssociates(InOrder(t.left), t.node, InOrder(s.left), s.node, InOrder(s.right));
      RotateAssociates(Keys(t.left), t.key, Keys(s.left), s.key, Keys(s.right));
    }
    if t.Branch? && t.left.Branch? {
      var s := t.left;
      RotateAssociates(InOrder(s.left), s.node, InOrder(s.right), t.node, InOrder(t.right));
      RotateAssociates(Keys(s.left), s.key, Keys(s.right), t.key, Keys(t.right));
    }
  }

  lemma OuterIsHeavy(c: Context, t: Tree, h: nat)
    requires Fixing(c, t, h) && RedAbove(c)
    ensures c.InLeft? ==> LeftHeavy(Around(c, t), h)
    ensures c.InRight? ==> RightHeavy(Around(c, t), h)
  {
    RedParent(c, t, h);
  }

  /** Turning an inner grandchild outwards. */
  lemma InnerTurns(p: Tree, h: nat)
    ensures RightHeavy(p, h) ==> LeftHeavy(RotatedLeft(p), h)
    ensures LeftHeavy(p, h) ==> RightHeavy(RotatedRight(p), h)
  {
    if RightHeavy(p, h) {
      assert Balanced(p.left, h) && Balanced(p.right, h);
      assert Balanced(p.right.left, h) && Balanced(p.right.right, h);
      assert Balanced(RotatedLeft(p).left, h);
    }
    if LeftHeavy(p, h) {
      assert Balanced(p.left, h) && Balanced(p.right, h);
      assert Balanced(p.left.left, h) && Balanced(p.left.right, h);
      assert Balanced(RotatedRight(p).right, h);
    }
  }

  lemma ColorsKeepOrder(d: Context, p: Tree)
    requires !d.Top? && p.Branch?
    ensures var g := Around(d, p.(color := Black)); g.Branch? && Same(g.(color := Red), Around(d, p))
  {
  }

  lemma SameReflexive(t: Tree)
    ensures Same(t, t)
  {
  }

  lemma PlugTwice(c: Context, t: Tree)
    requires !c.Top? && !c.up.Top?
    ensures Plug(c, t) == Plug(c.up.up, Around(c.up, Around(c, t)))
  {
    assert Plug(c, t) == Plug(c.up, Around(c, t));
  }

  /** Without a red parent there is nothing left to repair. */
  lemma FixingEnds(c: Context, t: Tree, h: nat)
    ensures Fixing(c, t, h) && !RedAbove(c) ==> Fixed(c, t, h)
  {
  }

  lemma SameTransitive(t: Tree, u: Tree, v: Tree)
    requires Same(t, u) && Same(u, v)
    ensures Same(t, v)
  {
  }

  /** The last rotation, with the colors of parent and grandparent exchanged. */
  lemma LeftTurnFixes(p: Tree, g: Node, gk: int, uncle: Tree, c: Context, h: nat)
    requires LeftHeavy(p, h) && NoRedRed(uncle) && !IsRed(uncle) && Balanced(uncle, h)
    requires ContextBalanced(c, h + 1) && ContextNoRedRed(c) && RootBlack(c)
    ensures Fixed(c, RotatedRight(Branch(p.(color := Black), g, gk, Red, uncle)), h + 1)
  {
  }

  lemma RightTurnFixes(p: Tree, g: Node, gk: int, uncle: Tree, c: Context, h: nat)
    requires RightHeavy(p, h) && NoRedRed(uncle) && !IsRed(uncle) && Balanced(uncle, h)
    requires ContextBalanced(c, h + 1) && ContextNoRedRed(c) && RootBlack(c)
    ensures Fixed(c, RotatedLeft(Branch(uncle, g, gk, Red, p.(color := Black))), h + 1)
  {
  }

  /** Painting the root black finishes the repair. */
  lemma FixedIsRedBlack(c: Context, t: Tree, h: nat)
    requires Fixed(c, t, h) && t.Branch?
    ensures Plug(c, t).Branch? && RedBlack(Plug(c, t).(color := Black))
    ensures Same(Plug(c, t).(color := Black), Plug(c, t))
  {
    PlugNoRedRed(c, t);
    PlugBranch(c, t);
    var total := PlugBalanced(c, t, h);
    var u := Plug(c, t);
    if IsRed(u) {
      assert Balanced(u.(color := Black), total + 1);
    } else {
      assert Balanced(u.(color := Black), total);
    }
  }

  lemma {:induction false} PlugBranch(c: Context, t: Tree)
    requires t.Branch?
    ensures Plug(c, t).Branch?
  {
    if !c.Top? {
      PlugBranch(c.up, Around(c, t));
    }
  }

  /** A fresh red leaf in a sound tree starts the repair. */
  lemma InsertStarts(c: Context, n: Node, k: int) returns (h: nat)
    requires RedBlack(Plug(c, Leaf))
    ensures Fixing(c, Branch(Leaf, n, k, Red, Leaf), h)
  {
    PlugNoRedRed(c, Leaf);
    var total: nat :| Balanced(Plug(c, Leaf), total);
    h := UnplugBalanced(c, Leaf, total);
    UnplugRoot(c, Leaf);
  }

  // ----- what the colors buy

  ghost function Depth(t: Tree): nat {
    match t
    case Leaf => 0
    case Branch(l, _, _, _, r) => 1 + if Depth(l) < Depth(r) then Depth(r) else Depth(l)
  }

  /** Going down, left for `true`, one comes to a node at every step and at the end. */
  ghost predicate Descent(t: Tree, path: seq<bool>)
    decreases t
  {
    t.Branch? && (path == [] || Descent(if path[0] then t.left else t.right, path[1..]))
  }

  /** No way down has more nodes than the depth... */
  lemma {:induction false} DescentWithin(t: Tree, path: seq<bool>)
    requires Descent(t, path)
    ensures |path| < Depth(t)
    decreases t
  {
    if path != [] {
      DescentWithin(if path[0] then t.left else t.right, path[1..]);
    }
  }

  /** ...and one has that many. */
  lemma {:induction false} LongestDescent(t: Tree) returns (path: seq<bool>)
    requires t.Branch?
    ensures Descent(t, path) && |path| + 1 == Depth(t)
    decreases t
  {
    var left := Depth(t.right) <= Depth(t.left);
    var next := if left then t.left else t.right;
    if next.Branch? {
      var rest := LongestDescent(next);
      path := [left] + rest;
      assert path[1..] == rest;
    } else {
      path := [];
    }
  }

  ghost function Power(h: nat): nat {
    if h == 0 then 1 else 2 * Power(h - 1)
  }

  lemma {:induction false} DepthBound(t: Tree, h: nat)
    requires NoRedRed(t) && Balanced(t, h)
    ensures Depth(t) <= 2 * h + (if IsRed(t) then 1 else 0)
    ensures Power(h) <= |InOrder(t)| + 1
  {
    if t.Branch? {
      var below := if t.color == Black then h - 1 else h;
      DepthBound(t.left, below);
      DepthBound(t.right, below);
    }
  }

  /** No search takes more than twice the logarithm of the size. */
  lemma Shallow(t: Tree)
    requires RedBlack(t)
    ensures exists h: nat :: Depth(t) <= 2 * h && Power(h) <= |InOrder(t)| + 1
  {
    var h: nat :| Balanced(t, h);
    DepthBound(t, h);
    assert Power(h) <= |InOrder(t)| + 1;
  }
}
