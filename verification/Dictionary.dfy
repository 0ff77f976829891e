/** src/f2fs/dict.c: a dictionary kept as a red-black tree of linked nodes. */
module Dictionary {
  import opened RedBlackTree

  ghost predicate Distinct(t: Tree) {
    match t
    case Leaf => true
    case Branch(l, n, _, _, r) =>
      && n !in Nodes(l) && n !in Nodes(r) && Nodes(l) !! Nodes(r)
      && Distinct(l) && Distinct(r)
  }

  ghost predicate ContextDistinct(c: Context) {
    c.Top? ||
    (&& c.node !in ContextNodes(c.up) && c.node !in Nodes(c.sibling) && Nodes(c.sibling) !! ContextNodes(c.up)
     && Distinct(c.sibling) && ContextDistinct(c.up))
  }

  /** The nodes reachable from `x` form the tree `t`; the one on top has parent `p`. */
  ghost predicate Linked(t: Tree, x: Node, p: Node, nil: Node)
    reads Nodes(t)
  {
    match t
    case Leaf => x == nil
    case Branch(l, n, k, col, r) =>
      && x == n && n != nil && n.key == k && n.color == col && n.parent == p
      && Linked(l, n.left, n, nil) && Linked(r, n.right, n, nil)
  }

  /** The nodes above the hole at `x`, whose parent is `p`, form the context `c`. */
  ghost predicate ContextLinked(c: Context, x: Node, p: Node, nil: Node)
    reads ContextNodes(c)
  {
    match c
    case Top => p == nil
    case InLeft(up, n, k, col, s) =>
      && p == n && n != nil && n.key == k && n.color == col && n.left == x
      && Linked(s, n.right, n, nil) && ContextLinked(up, n, n.parent, nil)
    case InRight(up, n, k, col, s) =>
      && p == n && n != nil && n.key == k && n.color == col && n.right == x
      && Linked(s, n.left, n, nil) && ContextLinked(up, n, n.parent, nil)
  }

  /** The topmost node of a tree whose hole at `x` is in context `c`. */
  ghost function Root(c: Context, x: Node): Node {
    if c.Top? then x else Root(c.up, c.node)
  }

  /** The nil node points to the root; only its `parent` may hold anything. */
  ghost predicate NilPoints(nil: Node, root: Node)
    reads nil
  {
    nil.left == root && nil.right == nil && nil.color == Black
  }

  /** Everything about the links: subtree `t` hangs at `x` under `p`, inside context `c`. */
  ghost predicate At(c: Context, t: Tree, x: Node, p: Node, nil: Node)
    reads ContextNodes(c), Nodes(t), nil
  {
    && nil !in ContextNodes(c) && nil !in Nodes(t) && Nodes(t) !! ContextNodes(c)
    && Distinct(t) && ContextDistinct(c)
    && Linked(t, x, p, nil) && ContextLinked(c, x, p, nil)
    && NilPoints(nil, Root(c, x))
  }

  /** Hangs `lower` where `upper` was, whatever is above. */
  method Relink(upparent: Node, upper: Node, lower: Node, nil: Node, ghost c: Context)
    requires nil !in ContextNodes(c) && upper !in ContextNodes(c) && upper != nil && ContextDistinct(c)
    requires ContextLinked(c, upper, upparent, nil) && NilPoints(nil, Root(c, upper))
    modifies upparent
    ensures ContextLinked(c, lower, upparent, nil) && NilPoints(nil, Root(c, lower))
    ensures upparent == nil || upparent in ContextNodes(c)
    ensures nil.parent == old(nil.parent)
  {
    if upper == upparent.left {
      upparent.left := lower;
    } else {
      upparent.right := lower;
    }
  }

  lemma LinkedBranch(l: Tree, n: Node, k: int, col: Color, r: Tree, x: Node, p: Node, nil: Node)
    ensures Linked(Branch(l, n, k, col, r), x, p, nil) <==>
              && x == n && n != nil && n.key == k && n.color == col && n.parent == p
              && Linked(l, n.left, n, nil) && Linked(r, n.right, n, nil)
  {
  }

  lemma DistinctBranch(l: Tree, n: Node, k: int, col: Color, r: Tree)
    ensures Nodes(Branch(l, n, k, col, r)) == Nodes(l) + {n} + Nodes(r)
    ensures Distinct(Branch(l, n, k, col, r)) <==>
              n !in Nodes(l) && n !in Nodes(r) && Nodes(l) !! Nodes(r) && Distinct(l) && Distinct(r)
  {
  }

  lemma LinkedTop(t: Tree, x: Node, p: Node, nil: Node)
    requires Linked(t, x, p, nil)
    ensures x == nil || x in Nodes(t)
  {
  }

  lemma ContextTop(c: Context, x: Node, p: Node, nil: Node)
    requires ContextLinked(c, x, p, nil)
    ensures p == nil || p in ContextNodes(c)
  {
  }

  /** Gives a subtree another parent; an empty one scribbles on the nil node. */
  method SetParent(x: Node, p: Node, nil: Node, ghost t: Tree, ghost q: Node)
    requires Linked(t, x, q, nil) && Distinct(t) && nil !in Nodes(t)
    modifies x`parent
    ensures Linked(t, x, p, nil)
    ensures x == nil || x in Nodes(t)
  {
    x.parent := p;
  }

  /** `rotate_left`. The set `all` holds the nodes of the whole tree; with it the nodes are known to exist
      already, and what is not written stays as it was. */
  method RotateLeft(upper: Node, nil: Node, ghost c: Context, ghost t: Tree, ghost all: set<Node>)
    requires Nodes(t) <= all && ContextNodes(c) <= all
    requires t.Branch? && t.right.Branch?
    requires At(c, t, upper, upper.parent, nil)
    modifies ContextNodes(c), Nodes(t), nil
    ensures At(c, RotatedLeft(t), t.right.node, old(upper.parent), nil)
  {
    hide Linked, ContextLinked, Distinct, ContextDistinct, Nodes, ContextNodes, Root, At;
    ghost var a, b, d, lk, lc := t.left, t.right.left, t.right.right, t.right.key, t.right.color;
    OpenRight(c, t, upper, nil);
    var lower := upper.right;
    var lowleft := lower.left;
    upper.right := lowleft;
    SetParent(lowleft, upper, nil, b, lower);
    var upparent := upper.parent;
    lower.parent := upparent;
    Relink(upparent, upper, lower, nil, c);
    lower.left := upper;
    upper.parent := lower;
    CloseLeft(c, a, upper, t.key, t.color, b, lower, lk, lc, d, upparent, nil);
  }

  /** The parts of a tree about to be rotated to the left, and that they are apart. */
  lemma OpenRight(c: Context, t: Tree, upper: Node, nil: Node)
    requires t.Branch? && t.right.Branch? && At(c, t, upper, upper.parent, nil)
    ensures t.node == upper && t.right.node == upper.right && upper != nil && upper.right != nil && upper.right != upper
    ensures upper.key == t.key && upper.color == t.color
    ensures upper.right.key == t.right.key && upper.right.color == t.right.color
    ensures var a, b, d, lower := t.left, t.right.left, t.right.right, upper.right;
            && Nodes(a) <= Nodes(t) && Nodes(b) <= Nodes(t) && Nodes(d) <= Nodes(t)
            && upper in Nodes(t) && lower in Nodes(t)
            && Apart(c, a, upper, b, lower, d, nil)
            && Linked(a, upper.left, upper, nil) && Linked(b, lower.left, lower, nil)
            && Linked(d, lower.right, lower, nil)
            && (lower.left == nil || lower.left in Nodes(b))
    ensures ContextLinked(c, upper, upper.parent, nil) && NilPoints(nil, Root(c, upper))
    ensures upper.parent == nil || upper.parent in ContextNodes(c)
  {
    hide Linked, ContextLinked, Distinct, ContextDistinct, Nodes, ContextNodes, Root;
    LinkedBranch(t.left, t.node, t.key, t.color, t.right, upper, upper.parent, nil);
    var s := t.right;
    LinkedBranch(s.left, s.node, s.key, s.color, s.right, upper.right, upper, nil);
    DistinctBranch(t.left, t.node, t.key, t.color, t.right);
    DistinctBranch(s.left, s.node, s.key, s.color, s.right);
    LinkedTop(s.left, upper.right.left, upper.right, nil);
    ContextTop(c, upper, upper.parent, nil);
  }

  /** Three subtrees, two nodes, a context and the nil node that share nothing. */
  ghost predicate Apart(c: Context, a: Tree, upper: Node, b: Tree, lower: Node, d: Tree, nil: Node) {
    && upper !in Nodes(a) && upper !in Nodes(b) && upper !in Nodes(d) && upper !in ContextNodes(c)
    && lower !in Nodes(a) && lower !in Nodes(b) && lower !in Nodes(d) && lower !in ContextNodes(c)
    && Nodes(a) !! Nodes(b) && Nodes(a) !! Nodes(d) && Nodes(b) !! Nodes(d)
    && Nodes(a) !! ContextNodes(c) && Nodes(b) !! ContextNodes(c) && Nodes(d) !! ContextNodes(c)
    && nil !in Nodes(a) && nil !in Nodes(b) && nil !in Nodes(d) && nil !in ContextNodes(c)
    && upper != lower && upper != nil && lower != nil
    && Distinct(a) && Distinct(b) && Distinct(d) && ContextDistinct(c)
  }

  lemma CloseLeft(c: Context, a: Tree, upper: Node, uk: int, uc: Color, b: Tree, lower: Node, lk: int, lc: Color,
                  d: Tree, p: Node, nil: Node)
    requires Apart(c, a, upper, b, lower, d, nil)
    requires upper.key == uk && upper.color == uc && upper.parent == lower
    requires lower.key == lk && lower.color == lc && lower.parent == p && lower.left == upper
    requires Linked(a, upper.left, upper, nil) && Linked(b, upper.right, upper, nil)
    requires Linked(d, lower.right, lower, nil)
    requires ContextLinked(c, lower, p, nil) && NilPoints(nil, Root(c, lower))
    ensures At(c, Branch(Branch(a, upper, uk, uc, b), lower, lk, lc, d), lower, p, nil)
  {
    hide Linked, ContextLinked, Distinct, ContextDistinct, Nodes, ContextNodes, Root;
    LinkedBranch(a, upper, uk, uc, b, upper, lower, nil);
    LinkedBranch(Branch(a, upper, uk, uc, b), lower, lk, lc, d, lower, p, nil);
    DistinctBranch(a, upper, uk, uc, b);
    DistinctBranch(Branch(a, upper, uk, uc, b), lower, lk, lc, d);
  }

  /** Hangs `lower` where `upper` was, looking at the right link first. */
  method RelinkRight(upparent: Node, upper: Node, lower: Node, nil: Node, ghost c: Context)
    requires nil !in ContextNodes(c) && upper !in ContextNodes(c) && upper != nil && ContextDistinct(c)
    requires ContextLinked(c, upper, upparent, nil) && NilPoints(nil, Root(c, upper))
    modifies upparent
    ensures ContextLinked(c, lower, upparent, nil) && NilPoints(nil, Root(c, lower))
    ensures upparent == nil || upparent in ContextNodes(c)
    ensures nil.parent == old(nil.parent)
  {
    if upper == upparent.right {
      upparent.right := lower;
    } else {
      upparent.left := lower;
    }
  }

  /** `rotate_right` */
  method RotateRight(upper: Node, nil: Node, ghost c: Context, ghost t: Tree, ghost all: set<Node>)
    requires Nodes(t) <= all && ContextNodes(c) <= all
    requires t.Branch? && t.left.Branch?
    requires At(c, t, upper, upper.parent, nil)
    modifies ContextNodes(c), Nodes(t), nil
    ensures At(c, RotatedRight(t), t.left.node, old(upper.parent), nil)
  {
    hide Linked, ContextLinked, Distinct, ContextDistinct, Nodes, ContextNodes, Root, At;
    ghost var a, b, d, lk, lc := t.left.left, t.left.right, t.right, t.left.key, t.left.color;
    OpenLeft(c, t, upper, nil);
    var lower := upper.left;
    var lowright := lower.right;
    upper.left := lowright;
    SetParent(lowright, upper, nil, b, lower);
    var upparent := upper.parent;
    lower.parent := upparent;
    RelinkRight(upparent, upper, lower, nil, c);
    lower.right := upper;
    upper.parent := lower;
    CloseRight(c, a, lower, lk, lc, b, upper, t.key, t.color, d, upparent, nil);
  }

  /** The parts of a tree about to be rotated to the right, and that they are apart. */
  lemma OpenLeft(c: Context, t: Tree, upper: Node, nil: Node)
    requires t.Branch? && t.left.Branch? && At(c, t, upper, upper.parent, nil)
    ensures t.node == upper && t.left.node == upper.left && upper != nil && upper.left != nil && upper.left != upper
    ensures upper.key == t.key && upper.color == t.color
    ensures upper.left.key == t.left.key && upper.left.color == t.left.color
    ensures var a, b, d, lower := t.left.left, t.left.right, t.right, upper.left;
            && Nodes(a) <= Nodes(t) && Nodes(b) <= Nodes(t) && Nodes(d) <= Nodes(t)
            && upper in Nodes(t) && lower in Nodes(t)
            && Apart(c, a, upper, b, lower, d, nil)
            && Linked(a, lower.left, lower, nil) && Linked(b, lower.right, lower, nil)
            && Linked(d, upper.right, upper, nil)
            && (lower.right == nil || lower.right in Nodes(b))
    ensures ContextLinked(c, upper, upper.parent, nil) && NilPoints(nil, Root(c, upper))
    ensures upper.parent == nil || upper.parent in ContextNodes(c)
  {
    hide Linked, ContextLinked, Distinct, ContextDistinct, Nodes, ContextNodes, Root;
    LinkedBranch(t.left, t.node, t.key, t.color, t.right, upper, upper.parent, nil);
    var s := t.left;
    LinkedBranch(s.left, s.node, s.key, s.color, s.right, upper.left, upper, nil);
    DistinctBranch(t.left, t.node, t.key, t.color, t.right);
    DistinctBranch(s.left, s.node, s.key, s.color, s.right);
    LinkedTop(s.right, upper.left.right, upper.left, nil);
    ContextTop(c, upper, upper.parent, nil);
  }

  lemma CloseRight(c: Context, a: Tree, lower: Node, lk: int, lc: Color, b: Tree, upper: Node, uk: int, uc: Color,
                   d: Tree, p: Node, nil: Node)
    requires Apart(c, a, upper, b, lower, d, nil)
    requires upper.key == uk && upper.color == uc && upper.parent == lower
    requires lower.key == lk && lower.color == lc && lower.parent == p && lower.right == upper
    requires Linked(a, lower.left, lower, nil) && Linked(b, upper.left, upper, nil)
    requires Linked(d, upper.right, upper, nil)
    requires ContextLinked(c, lower, p, nil) && NilPoints(nil, Root(c, lower))
    ensures At(c, Branch(a, lower, lk, lc, Branch(b, upper, uk, uc, d)), lower, p, nil)
  {
    hide Linked, ContextLinked, Distinct, ContextDistinct, Nodes, ContextNodes, Root;
    LinkedBranch(b, upper, uk, uc, d, upper, lower, nil);
    LinkedBranch(a, lower, lk, lc, Branch(b, upper, uk, uc, d), lower, p, nil);
    DistinctBranch(b, upper, uk, uc, d);
    DistinctBranch(a, lower, lk, lc, Branch(b, upper, uk, uc, d));
  }

  // ----- moving about without changing anything

  /** Seen from the parent, whichever side the subtree hangs on. */
  lemma GoUp(c: Context, t: Tree, x: Node, p: Node, nil: Node)
    requires !c.Top? && At(c, t, x, p, nil)
    ensures p == c.node && p != nil
    ensures At(c.up, Around(c, t), p, p.parent, nil)
    ensures Nodes(Around(c, t)) + ContextNodes(c.up) == Nodes(t) + ContextNodes(c)
  {
  }

  lemma GoLeft(c: Context, t: Tree, x: Node, p: Node, nil: Node)
    requires t.Branch? && At(c, t, x, p, nil)
    ensures x == t.node && x != nil
    ensures var c' := InLeft(c, t.node, t.key, t.color, t.right);
            At(c', t.left, x.left, x, nil) && Nodes(t.left) + ContextNodes(c') == Nodes(t) + ContextNodes(c)
  {
  }

  lemma GoRight(c: Context, t: Tree, x: Node, p: Node, nil: Node)
    requires t.Branch? && At(c, t, x, p, nil)
    ensures x == t.node && x != nil
    ensures var c' := InRight(c, t.node, t.key, t.color, t.left);
            At(c', t.right, x.right, x, nil) && Nodes(t.right) + ContextNodes(c') == Nodes(t) + ContextNodes(c)
  {
  }

  /** Paints the topmost node of a subtree. */
  method Paint(x: Node, col: Color, nil: Node, ghost c: Context, ghost t: Tree, ghost p: Node)
    requires t.Branch? && At(c, t, x, p, nil)
    modifies x`color
    ensures At(c, t.(color := col), x, p, nil)
    ensures Nodes(t.(color := col)) == Nodes(t)
  {
    x.color := col;
  }

  // ----- what the code can see

  /** Which side a subtree that is not empty hangs on. */
  lemma SideOf(c: Context, t: Tree, x: Node, p: Node, nil: Node)
    requires At(c, t, x, p, nil) && !c.Top? && t.Branch?
    ensures (x == p.left <==> c.InLeft?) && (x == p.right <==> c.InRight?)
  {
    LinkedTop(c.sibling, if c.InLeft? then p.right else p.left, p, nil);
  }

  /** The colors of a subtree and of what it hangs under; the nil node counts as black. */
  lemma ColorsOf(c: Context, t: Tree, x: Node, p: Node, nil: Node)
    requires At(c, t, x, p, nil)
    ensures x.color == Red <==> IsRed(t)
    ensures p.color == Red <==> RedAbove(c)
    ensures x == nil <==> t.Leaf?
  {
  }

  /** The subtree next to a hole. */
  lemma SiblingOf(c: Context, t: Tree, x: Node, p: Node, nil: Node)
    requires At(c, t, x, p, nil) && !c.Top?
    ensures var y := if c.InLeft? then p.right else p.left;
            && (y.color == Red <==> IsRed(c.sibling))
            && At(Beside(c, t), c.sibling, y, p, nil)
            && Nodes(c.sibling) + ContextNodes(Beside(c, t)) == Nodes(t) + ContextNodes(c)
  {
    LinkedTop(c.sibling, if c.InLeft? then p.right else p.left, p, nil);
  }

  /** The context of the sibling. */
  ghost function Beside(c: Context, t: Tree): (r: Context)
    requires !c.Top?
    ensures !r.Top? && r.up == c.up && r.color == c.color
  {
    if c.InLeft? then InRight(c.up, c.node, c.key, c.color, t) else InLeft(c.up, c.node, c.key, c.color, t)
  }

  // ----- the repair

  /** A red uncle: parent and uncle turn black, the grandparent red. */
  method Recolor(parent: Node, uncle: Node, grandpa: Node, nil: Node, ghost c: Context, ghost t: Tree, ghost x: Node)
    requires At(c, t, x, parent, nil) && !c.Top? && !c.up.Top? && c.up.sibling.Branch?
    requires grandpa == parent.parent && uncle == (if c.up.InLeft? then grandpa.right else grandpa.left)
    modifies parent`color, uncle`color, grandpa`color
    ensures At(c.up.up, Recolored(c, t), grandpa, grandpa.parent, nil)
    ensures Nodes(Recolored(c, t)) + ContextNodes(c.up.up) == Nodes(t) + ContextNodes(c)
  {
    hide Linked, ContextLinked, Distinct, ContextDistinct, Nodes, ContextNodes, Root, At;
    ghost var p := Around(c, t);
    GoUp(c, t, x, parent, nil);
    Paint(parent, Black, nil, c.up, p, grandpa);
    ghost var p' := p.(color := Black);
    SiblingOf(c.up, p', parent, grandpa, nil);
    ghost var d, u := Beside(c.up, p'), c.up.sibling;
    Paint(uncle, Black, nil, d, u, grandpa);
    GoUp(d, u.(color := Black), uncle, grandpa, nil);
    ghost var g := Around(d, u.(color := Black));
    Paint(grandpa, Red, nil, d.up, g, grandpa.parent);
    assert g.(color := Red) == Recolored(c, t);
  }

  lemma RotatedNodes(t: Tree)
    ensures t.Branch? && t.right.Branch? ==> Nodes(RotatedLeft(t)) == Nodes(t)
    ensures t.Branch? && t.left.Branch? ==> Nodes(RotatedRight(t)) == Nodes(t)
  {
  }

  /** Turns an inner grandchild outwards, when the parent is a left child. */
  method StraightenLeft(node: Node, parentIn: Node, nil: Node, ghost c: Context, ghost t: Tree, ghost h: nat,
                        ghost all: set<Node>)
    returns (parent: Node, ghost p: Tree)
    requires At(c, t, node, parentIn, nil) && Nodes(t) + ContextNodes(c) == all
    requires Fixing(c, t, h) && RedAbove(c)
    modifies all, nil
    ensures LeftHeavy(p, h) && p.node == parent && Same(p, Around(c, t))
    ensures At(c.up, p, parent, old(parentIn.parent), nil) && Nodes(p) + ContextNodes(c.up) == all
  {
    hide Linked, ContextLinked, Distinct, ContextDistinct, Nodes, ContextNodes, Root, At, NilPoints;
    hide Balanced, NoRedRed, ContextBalanced, ContextNoRedRed, RootBlack, RotatedLeft, RotatedRight, InOrder, Keys;
    parent, p := parentIn, Around(c, t);
    SideOf(c, t, node, parent, nil);
    GoUp(c, t, node, parent, nil);
    OuterIsHeavy(c, t, h);
    if node == parent.right {
      assert p.right == t;
      NodeOf(c, t, node, parent, nil);
      RotateLeft(parent, nil, c.up, p, all);
      InnerTurns(p, h);
      RotationsKeepOrder(p);
      RotatedNodes(p);
      RotatedTop(p);
      p := RotatedLeft(p);
      parent := node;
    }
  }

  lemma NodeOf(c: Context, t: Tree, x: Node, p: Node, nil: Node)
    requires At(c, t, x, p, nil) && t.Branch?
    ensures t.node == x && x.parent == p
  {
  }

  lemma RotatedTop(t: Tree)
    ensures t.Branch? && t.right.Branch? ==> RotatedLeft(t).node == t.right.node
    ensures t.Branch? && t.left.Branch? ==> RotatedRight(t).node == t.left.node
  {
  }

  /** Turns an inner grandchild outwards, when the parent is a right child. */
  method StraightenRight(node: Node, parentIn: Node, nil: Node, ghost c: Context, ghost t: Tree, ghost h: nat,
                         ghost all: set<Node>)
    returns (parent: Node, ghost p: Tree)
    requires At(c, t, node, parentIn, nil) && Nodes(t) + ContextNodes(c) == all
    requires Fixing(c, t, h) && RedAbove(c)
    modifies all, nil
    ensures RightHeavy(p, h) && p.node == parent && Same(p, Around(c, t))
    ensures At(c.up, p, parent, old(parentIn.parent), nil) && Nodes(p) + ContextNodes(c.up) == all
  {
    hide Linked, ContextLinked, Distinct, ContextDistinct, Nodes, ContextNodes, Root, At, NilPoints;
    hide Balanced, NoRedRed, ContextBalanced, ContextNoRedRed, RootBlack, RotatedLeft, RotatedRight, InOrder, Keys;
    parent, p := parentIn, Around(c, t);
    SideOf(c, t, node, parent, nil);
    GoUp(c, t, node, parent, nil);
    OuterIsHeavy(c, t, h);
    if node == parent.left {
      assert p.left == t;
      NodeOf(c, t, node, parent, nil);
      RotateRight(parent, nil, c.up, p, all);
      InnerTurns(p, h);
      RotationsKeepOrder(p);
      RotatedNodes(p);
      RotatedTop(p);
      p := RotatedRight(p);
      parent := node;
    }
  }

  /** The last turn, when the parent is a left child: the colors of parent and grandparent
      are exchanged and the grandparent goes down to the right. */
  method FinishRight(parent: Node, grandpa: Node, nil: Node, ghost d: Context, ghost p: Tree, ghost h: nat,
                     ghost all: set<Node>)
    returns (ghost t: Tree)
    requires At(d, p, parent, grandpa, nil) && Nodes(p) + ContextNodes(d) == all
    requires d.InLeft? && LeftHeavy(p, h) && p.node == parent
    requires NoRedRed(d.sibling) && !IsRed(d.sibling) && Balanced(d.sibling, h)
    requires ContextBalanced(d.up, h + 1) && ContextNoRedRed(d.up) && RootBlack(d.up)
    modifies all, nil
    ensures t.Branch? && Fixed(d.up, t, h + 1) && Same(t, Around(d, p))
    ensures At(d.up, t, parent, parent.parent, nil) && Nodes(t) + ContextNodes(d.up) == all
  {
    hide Linked, ContextLinked, Distinct, ContextDistinct, Nodes, ContextNodes, Root, At, NilPoints;
    hide Balanced, NoRedRed, ContextBalanced, ContextNoRedRed, RootBlack, RotatedLeft, RotatedRight;
    Members(d, p, parent, grandpa, nil);
    Paint(parent, Black, nil, d, p, grandpa);
    ghost var p' := p.(color := Black);
    GoUp(d, p', parent, grandpa, nil);
    ghost var g := Around(d, p');
    Paint(grandpa, Red, nil, d.up, g, grandpa.parent);
    ghost var g' := g.(color := Red);
    ghost var above := grandpa.parent;
    RotateRight(grandpa, nil, d.up, g', all);
    LeftTurnFixes(p, d.node, d.key, d.sibling, d.up, h);
    RotationsKeepOrder(g');
    RotatedNodes(g');
    RotatedTop(g');
    t := RotatedRight(g');
    NodeOf(d.up, t, parent, above, nil);
    ColorsKeepOrder(d, p);
    SameTransitive(t, g', Around(d, p));
  }

  method FinishLeft(parent: Node, grandpa: Node, nil: Node, ghost d: Context, ghost p: Tree, ghost h: nat,
                    ghost all: set<Node>)
    returns (ghost t: Tree)
    requires At(d, p, parent, grandpa, nil) && Nodes(p) + ContextNodes(d) == all
    requires d.InRight? && RightHeavy(p, h) && p.node == parent
    requires NoRedRed(d.sibling) && !IsRed(d.sibling) && Balanced(d.sibling, h)
    requires ContextBalanced(d.up, h + 1) && ContextNoRedRed(d.up) && RootBlack(d.up)
    modifies all, nil
    ensures t.Branch? && Fixed(d.up, t, h + 1) && Same(t, Around(d, p))
    ensures At(d.up, t, parent, parent.parent, nil) && Nodes(t) + ContextNodes(d.up) == all
  {
    hide Linked, ContextLinked, Distinct, ContextDistinct, Nodes, ContextNodes, Root, At, NilPoints;
    hide Balanced, NoRedRed, ContextBalanced, ContextNoRedRed, RootBlack, RotatedLeft, RotatedRight;
    Members(d, p, parent, grandpa, nil);
    Paint(parent, Black, nil, d, p, grandpa);
    ghost var p' := p.(color := Black);
    GoUp(d, p', parent, grandpa, nil);
    ghost var g := Around(d, p');
    Paint(grandpa, Red, nil, d.up, g, grandpa.parent);
    ghost var g' := g.(color := Red);
    ghost var above := grandpa.parent;
    RotateLeft(grandpa, nil, d.up, g', all);
    RightTurnFixes(p, d.node, d.key, d.sibling, d.up, h);
    RotationsKeepOrder(g');
    RotatedNodes(g');
    RotatedTop(g');
    t := RotatedLeft(g');
    NodeOf(d.up, t, parent, above, nil);
    ColorsKeepOrder(d, p);
    SameTransitive(t, g', Around(d, p));
  }

  lemma Members(c: Context, t: Tree, x: Node, p: Node, nil: Node)
    requires At(c, t, x, p, nil)
    ensures t.Branch? ==> x in Nodes(t)
    ensures !c.Top? ==> p in ContextNodes(c)
  {
  }

  /** One turn of the repair loop, for a node whose parent is red. */
  method FixStep(node: Node, parent: Node, nil: Node, ghost c: Context, ghost t: Tree, ghost h: nat,
                 ghost all: set<Node>)
    returns (done: bool, next: Node, ghost t': Tree)
    requires At(c, t, node, parent, nil) && Nodes(t) + ContextNodes(c) == all
    requires Fixing(c, t, h) && RedAbove(c) && !c.up.Top?
    modifies all, nil
    ensures t'.Branch? && At(c.up.up, t', next, next.parent, nil) && Nodes(t') + ContextNodes(c.up.up) == all
    ensures Same(t', Around(c.up, Around(c, t)))
    ensures done ==> Fixed(c.up.up, t', h + 1)
    ensures !done ==> Fixing(c.up.up, t', h + 1)
  {
    hide Linked, ContextLinked, Distinct, ContextDistinct, Nodes, ContextNodes, Root, At, NilPoints;
    hide Balanced, NoRedRed, ContextBalanced, ContextNoRedRed, RootBlack, Recolored, Same, LeftHeavy, RightHeavy;
    hide Fixed, Fixing;
    var grandpa := parent.parent;
    ghost var p := Around(c, t);
    RedParent(c, t, h);
    Members(c, t, node, parent, nil);
    GoUp(c, t, node, parent, nil);
    Members(c.up, p, parent, grandpa, nil);
    SideOf(c.up, p, parent, grandpa, nil);
    SiblingOf(c.up, p, parent, grandpa, nil);
    SiblingIn(c.up, p, parent, grandpa, nil);
    var uncle := if parent == grandpa.left then grandpa.right else grandpa.left;
    if uncle.color == Red {
      RecolorFixes(c, t, h);
      Recolor(parent, uncle, grandpa, nil, c, t, node);
      return false, grandpa, Recolored(c, t);
    }
    done := true;
    ghost var q;
    if parent == grandpa.left {
      next, q := StraightenLeft(node, parent, nil, c, t, h, all);
      t' := FinishRight(next, grandpa, nil, c.up, q, h, all);
    } else {
      next, q := StraightenRight(node, parent, nil, c, t, h, all);
      t' := FinishLeft(next, grandpa, nil, c.up, q, h, all);
    }
    AroundSame(c.up, q, p);
    SameTransitive(t', Around(c.up, q), Around(c.up, p));
  }

  lemma SiblingIn(c: Context, t: Tree, x: Node, p: Node, nil: Node)
    requires At(c, t, x, p, nil) && !c.Top?
    ensures var y := if c.InLeft? then p.right else p.left; y.color == Red ==> y in ContextNodes(c)
    ensures c.sibling.Branch? <== IsRed(c.sibling)
  {
    LinkedTop(c.sibling, if c.InLeft? then p.right else p.left, p, nil);
  }

  lemma AroundSame(c: Context, t: Tree, u: Tree)
    requires !c.Top? && Same(t, u)
    ensures Same(Around(c, t), Around(c, u))
  {
  }

  lemma {:induction false} Zip(c: Context, t: Tree, x: Node, p: Node, nil: Node)
    requires At(c, t, x, p, nil)
    ensures At(Top, Plug(c, t), nil.left, nil, nil)
    ensures Nodes(Plug(c, t)) == Nodes(t) + ContextNodes(c)
    decreases c
  {
    if !c.Top? {
      GoUp(c, t, x, p, nil);
      Zip(c.up, Around(c, t), p, p.parent, nil);
    }
  }

  /** The loop of red-black adjustments, up to painting the root black. */
  method FixUp(nodeIn: Node, nil: Node, ghost c0: Context, ghost t0: Tree, ghost h0: nat, ghost all: set<Node>)
    returns (ghost tree: Tree)
    requires At(c0, t0, nodeIn, nodeIn.parent, nil) && Nodes(t0) + ContextNodes(c0) == all
    requires Fixing(c0, t0, h0)
    modifies all, nil
    ensures At(Top, tree, nil.left, nil, nil) && Nodes(tree) == all
    ensures RedBlack(tree) && Same(tree, Plug(c0, t0))
  {
    hide Linked, ContextLinked, Distinct, ContextDistinct, Nodes, ContextNodes, Root, At;
    hide Balanced, NoRedRed, ContextBalanced, ContextNoRedRed, RootBlack, Same, Plug, RedBlack;
    var node, parent, done := nodeIn, nodeIn.parent, false;
    ghost var c, t, h := c0, t0, h0;
    SameReflexive(Plug(c, t));
    ColorsOf(c, t, node, parent, nil);
    while !done && parent.color == Red
      invariant t.Branch? && At(c, t, node, parent, nil) && Nodes(t) + ContextNodes(c) == all
      invariant parent.color == Red <==> RedAbove(c)
      invariant if done then Fixed(c, t, h) else Fixing(c, t, h)
      invariant Same(Plug(c, t), Plug(c0, t0))
      decreases c
    {
      RedParent(c, t, h);
      PlugTwice(c, t);
      ghost var before := Around(c.up, Around(c, t));
      done, node, t := FixStep(node, parent, nil, c, t, h, all);
      PlugSame(c.up.up, t, before);
      SameTransitive(Plug(c.up.up, t), Plug(c.up.up, before), Plug(c0, t0));
      c, h, parent := c.up.up, h + 1, node.parent;
      ColorsOf(c, t, node, parent, nil);
    }
    FixingEnds(c, t, h);
    FixedIsRedBlack(c, t, h);
    Zip(c, t, node, parent, nil);
    tree := Plug(c, t);
    Members(Top, tree, nil.left, nil, nil);
    SameTransitive(tree.(color := Black), tree, Plug(c0, t0));
    Paint(nil.left, Black, nil, Top, tree, nil);
    tree := tree.(color := Black);
  }
}
