/**
 * The intrusive red-black tree: parent-linked nodes rewritten in place.
 *
 * Every operation carries, as ghost values, the context and subtree it works
 * on; `Holds` ties them to the fields of the nodes.
 */
module RbTree {
  import opened Lists
  import opened RbShape

  /** `struct rb_root`. */
  class RbRoot {
    var rbNode: Node?
    ghost var repr: set<Node>
    ghost var tree: Tree

    constructor ()
      ensures Valid(this) && tree == Leaf
    {
      rbNode, repr, tree := null, {}, Leaf;
      new;
      assert Balanced(tree, 0);
    }
  }

  /** The fields of every node of `t` agree with `t`, whose parent is `p`. */
  ghost predicate Links(t: Tree, p: Node?)
    reads Nodes(t)
  {
    match t
    case Leaf => true
    case T(l, n, c, r) =>
      n.parent == p && n.color == c && n.left == Root(l) && n.right == Root(r) &&
      Links(l, n) && Links(r, n)
  }

  /** The node above the hole of a context that itself hangs below `p`. */
  ghost function ParentOf(x: Ctx, p: Node?): Node?
  {
    if x.Top? then p else x.node
  }

  /** The topmost node once `child` is in the hole. */
  ghost function TopOf(x: Ctx, child: Node?): Node?
    decreases x
  {
    if x.Top? then child else TopOf(x.up, x.node)
  }

  /** The fields of the nodes of a context agree with it, with `child` in the hole. */
  ghost predicate CtxLinks(x: Ctx, child: Node?, p: Node?)
    reads CtxNodes(x)
    decreases x
  {
    match x
    case Top => true
    case InLeft(up, n, c, r) =>
      n.parent == ParentOf(up, p) && n.color == c && n.left == child && n.right == Root(r) &&
      Links(r, n) && CtxLinks(up, n, p)
    case InRight(up, l, n, c) =>
      n.parent == ParentOf(up, p) && n.color == c && n.left == Root(l) && n.right == child &&
      Links(l, n) && CtxLinks(up, n, p)
  }

  /** The tree under `root` is `t` inside the context `x`. */
  ghost predicate Holds(root: RbRoot, x: Ctx, t: Tree)
    reads root, root.repr
  {
    root.repr == CtxNodes(x) + Nodes(t) &&
    Apart(x, t) && Links(t, ParentOf(x, null)) && CtxLinks(x, Root(t), null) &&
    root.rbNode == TopOf(x, Root(t))
  }

  /** `root` is the tree `t`. */
  ghost predicate Represents(root: RbRoot, t: Tree)
    reads root, root.repr
  {
    root.repr == Nodes(t) &&
    Distinct(t) && Links(t, null) && root.rbNode == Root(t)
  }

  /** `root` is its tree, and that is a red-black tree. */
  ghost predicate Valid(root: RbRoot)
    reads root, root.repr
  {
    Represents(root, root.tree) && RedBlack(root.tree)
  }

  lemma Up(root: RbRoot, x: Ctx, t: Tree)
    requires !x.Top?
    ensures Holds(root, x, t) <==> Holds(root, x.up, Join(x, t))
  {}

  /** What the fields above the hole say about the context. */
  lemma ReadAbove(root: RbRoot, x: Ctx, t: Tree)
    requires Holds(root, x, t) && !x.Top?
    ensures x.node in root.repr && x.node.parent == ParentOf(x.up, null) && x.node.color == x.color
    ensures x.InLeft? ==> x.node.left == Root(t) && x.node.right == Root(x.right)
    ensures x.InLeft? && x.right.T? ==> x.right.node.color == x.right.color
    ensures x.InRight? ==> x.node.right == Root(t) && x.node.left == Root(x.left)
    ensures x.InRight? && x.left.T? ==> x.left.node.color == x.left.color
    ensures x.InRight? && t.T? ==> x.node.left != t.node
  {}

  /** A tree cut in two is the same tree. */
  lemma {:induction false} LinksPlug(x: Ctx, t: Tree, p: Node?)
    ensures Nodes(Plug(x, t)) == CtxNodes(x) + Nodes(t)
    ensures Links(Plug(x, t), p) <==> Links(t, ParentOf(x, p)) && CtxLinks(x, Root(t), p)
    ensures Root(Plug(x, t)) == TopOf(x, Root(t))
    decreases x
  {
    NodesPlug(x, t);
    match x
    case Top =>
    case InLeft(up, n, c, r) => LinksPlug(up, T(t, n, c, r), p);
    case InRight(up, l, n, c) => LinksPlug(up, T(l, n, c, t), p);
  }

  lemma HoldsPlug(root: RbRoot, x: Ctx, t: Tree)
    ensures Nodes(Plug(x, t)) == CtxNodes(x) + Nodes(t)
    ensures Holds(root, x, t) <==> Represents(root, Plug(x, t))
  {
    LinksPlug(x, t, null);
    NodesPlug(x, t);
  }

  lemma Refocus(root: RbRoot, x: Ctx, t: Tree, y: Ctx, u: Tree)
    requires Holds(root, x, t) && Plug(x, t) == Plug(y, u)
    ensures Holds(root, y, u)
  {
    HoldsPlug(root, x, t);
    HoldsPlug(root, y, u);
  }

  /** The idiom that makes `next` the child its `parent` had in place of `node`. */
  method ReplaceChild(root: RbRoot, parent: Node?, node: Node, next: Node?, ghost x: Ctx)
    requires CtxDistinct(x) && node !in CtxNodes(x) && CtxNodes(x) <= root.repr
    requires CtxLinks(x, node, null) && root.rbNode == TopOf(x, node) && parent == ParentOf(x, null)
    modifies root`rbNode, if parent == null then {} else {parent}
    ensures CtxLinks(x, next, null) && root.rbNode == TopOf(x, next)
  {
    if parent != null {
      if node == parent.left {
        parent.left := next;
      } else {
        parent.right := next;
      }
    } else {
      root.rbNode := next;
    }
  }

  /** `rb_set_parent` on the root of a subtree. */
  method SetParent(child: Node, p: Node?, ghost t: Tree, ghost q: Node?, ghost S: set<Node>)
    requires t.T? && t.node == child && Distinct(t) && Links(t, q) && Nodes(t) <= S
    modifies child`parent
    ensures Links(t, p)
  {
    child.parent := p;
  }

  /** The part of a left rotation below the parent of `node`. */
  method PivotLeft(node: Node, ghost p: Node?, ghost t: Tree, ghost S: set<Node>) returns (right: Node)
    requires t.T? && t.node == node && t.right.T? && Distinct(t) && Nodes(t) <= S
    requires Links(t, p)
    modifies Nodes(t)
    ensures right == t.right.node && Links(RotatedLeft(t), p)
  {
    ghost var T(a, _, c, T(b, y, d, e)) := t;
    assert Links(t.right, node) && Distinct(t.right);
    assert Nodes(t.right) == Nodes(b) + {y} + Nodes(e);
    assert b.T? ==> b.node in Nodes(b);

    right := node.right;
    var parent := node.parent;

    node.right := right.left;
    if right.left != null {
      SetParent(right.left, node, b, y, S);
    }

    right.left := node;
    right.parent := parent;
    node.parent := right;
    assert Links(T(a, node, c, b), y);
  }

  method RotateLeft(node: Node, root: RbRoot, ghost x: Ctx, ghost t: Tree)
    requires t.T? && t.node == node && t.right.T?
    requires Holds(root, x, t)
    modifies root`rbNode, root.repr
    ensures Holds(root, x, RotatedLeft(t))
  {
    ghost var T(a, _, c, T(b, y, d, e)) := t;
    RotationNodes(a, node, c, b, y, d, e);
    RotationDistinct(a, node, c, b, y, d, e);
    var parent := node.parent;
    var right := PivotLeft(node, ParentOf(x, null), t, root.repr);
    ReplaceChild(root, parent, node, right, x);
  }

  /** The part of a right rotation below the parent of `node`. */
  method PivotRight(node: Node, ghost p: Node?, ghost t: Tree, ghost S: set<Node>) returns (left: Node)
    requires t.T? && t.node == node && t.left.T? && Distinct(t) && Nodes(t) <= S
    requires Links(t, p)
    modifies Nodes(t)
    ensures left == t.left.node && Links(RotatedRight(t), p)
  {
    ghost var T(T(a, y, d, b), _, c, e) := t;
    assert Links(t.left, node) && Distinct(t.left);
    assert Nodes(t.left) == Nodes(a) + {y} + Nodes(b);
    assert b.T? ==> b.node in Nodes(b);

    left := node.left;
    var parent := node.parent;

    node.left := left.right;
    if left.right != null {
      SetParent(left.right, node, b, y, S);
    }

    left.right := node;
    left.parent := parent;
    node.parent := left;
    assert Links(T(b, node, c, e), y);
  }

  method RotateRight(node: Node, root: RbRoot, ghost x: Ctx, ghost t: Tree)
    requires t.T? && t.node == node && t.left.T?
    requires Holds(root, x, t)
    modifies root`rbNode, root.repr
    ensures Holds(root, x, RotatedRight(t))
  {
    ghost var T(T(a, y, d, b), _, c, e) := t;
    RotationNodes(a, y, d, b, node, c, e);
    RotationDistinct(a, y, d, b, node, c, e);
    var parent := node.parent;
    var left := PivotRight(node, ParentOf(x, null), t, root.repr);
    ReplaceChild(root, parent, node, left, x);
  }

  /** `rb_set_color`. */
  method SetColor(n: Node, c: Color, ghost root: RbRoot, ghost x: Ctx, ghost t: Tree)
    requires t.T? && t.node == n && Holds(root, x, t)
    modifies n`color
    ensures Holds(root, x, t.(color := c))
  {
    assert Nodes(t.(color := c)) == Nodes(t);
    n.color := c;
  }

  /** A red parent and a red uncle trade colours with the grandparent. */
  method Repaint(uncle: Node, parent: Node, gparent: Node, ghost root: RbRoot, ghost x: Ctx, ghost t: Tree)
    requires t.T? && t.node == gparent && t.left.T? && t.right.T?
    requires (t.left.node == parent && t.right.node == uncle) || (t.left.node == uncle && t.right.node == parent)
    requires Holds(root, x, t)
    modifies uncle`color, parent`color, gparent`color
    ensures Holds(root, x, T(Blacken(t.left), gparent, Red, Blacken(t.right)))
  {
    ghost var T(l, _, c, r) := t;
    ghost var right := r.node == uncle;
    ghost var xu, u := if right then InRight(x, l, gparent, c) else InLeft(x, gparent, c, r), if right then r else l;
    Up(root, xu, u);
    SetColor(uncle, Black, root, xu, u);
    Up(root, xu, Blacken(u));
    ghost var xp := if right then InLeft(x, gparent, c, Blacken(r)) else InRight(x, Blacken(l), gparent, c);
    ghost var p := if right then l else r;
    Up(root, xp, p);
    SetColor(parent, Black, root, xp, p);
    Up(root, xp, Blacken(p));
    SetColor(gparent, Red, root, x, T(Blacken(l), gparent, c, Blacken(r)));
  }

  /** The last step on the left: `parent` takes the place of `gparent`. */
  method InsertRotateRight(parent: Node, gparent: Node, root: RbRoot, ghost x: Ctx, ghost t: Tree)
    requires t.T? && t.node == gparent && t.left.T? && t.left.node == parent
    requires Holds(root, x, t)
    modifies root`rbNode, root.repr
    ensures Holds(root, x, T(t.left.left, parent, Black, T(t.left.right, gparent, Red, t.right)))
  {
    ghost var T(l, _, c, r) := t;
    ghost var xp := InLeft(x, gparent, c, r);
    Up(root, xp, l);
    SetColor(parent, Black, root, xp, l);
    Up(root, xp, Blacken(l));
    SetColor(gparent, Red, root, x, T(Blacken(l), gparent, c, r));
    RotateRight(gparent, root, x, T(Blacken(l), gparent, Red, r));
  }

  method InsertRotateLeft(parent: Node, gparent: Node, root: RbRoot, ghost x: Ctx, ghost t: Tree)
    requires t.T? && t.node == gparent && t.right.T? && t.right.node == parent
    requires Holds(root, x, t)
    modifies root`rbNode, root.repr
    ensures Holds(root, x, T(T(t.left, gparent, Red, t.right.left), parent, Black, t.right.right))
  {
    ghost var T(l, _, c, r) := t;
    ghost var xp := InRight(x, l, gparent, c);
    Up(root, xp, r);
    SetColor(parent, Black, root, xp, r);
    Up(root, xp, Blacken(r));
    SetColor(gparent, Red, root, x, T(l, gparent, c, Blacken(r)));
    RotateLeft(gparent, root, x, T(l, gparent, Red, Blacken(r)));
  }

  /**
   * The state of the insertion loop: a red `node` whose subtree is balanced, in
   * a context that would be balanced around a black subtree.
   */
  ghost predicate Inserting(node: Node, root: RbRoot, x: Ctx, t: Tree, h: nat, order: seq<Node>)
    reads root, root.repr
  {
    Holds(root, x, t) && t.T? && t.node == node && IsRed(t) &&
    Balanced(t, h) && CtxBalanced(x, h, false) && InOrder(Plug(x, t)) == order
  }

  /** A red parent has a parent of its own, and that one is black. */
  lemma GrandparentExists(x: Ctx, h: nat)
    requires !x.Top? && x.color.Red? && CtxBalanced(x, h, false)
    ensures !x.up.Top? && x.up.color.Black? && CtxBalanced(x.up.up, h + 1, false)
    ensures Balanced(if x.up.InLeft? then x.up.right else x.up.left, h)
  {}

  /** The inner rotation, taken when the red child is on the inner side. */
  method TurnOutLeft(node: Node, parent: Node, root: RbRoot, ghost x: Ctx, ghost p: Tree, ghost h: nat)
    returns (top: Node, low: Node, ghost p': Tree)
    requires p.T? && p.node == parent && p.color.Red?
    requires Holds(root, x, p) && Balanced(p.left, h) && Balanced(p.right, h)
    requires (p.left.T? && p.left.node == node && IsRed(p.left) && !IsRed(p.right)) ||
             (p.right.T? && p.right.node == node && IsRed(p.right) && !IsRed(p.left))
    modifies root`rbNode, root.repr
    ensures Holds(root, x, p') && InOrder(p') == InOrder(p)
    ensures p'.T? && p'.node == top && p'.color.Red? && p'.left.T? && p'.left.node == low
    ensures IsRed(p'.left) && !IsRed(p'.right) && Balanced(p'.left, h) && Balanced(p'.right, h)
  {
    top, low, p' := parent, node, p;
    if node == parent.right {
      RotationInOrder(p.left, p.node, p.color, p.right.left, p.right.node, p.right.color, p.right.right);
      RotateLeft(parent, root, x, p);
      top, low, p' := node, parent, RotatedLeft(p);
    }
  }

  method TurnOutRight(node: Node, parent: Node, root: RbRoot, ghost x: Ctx, ghost p: Tree, ghost h: nat)
    returns (top: Node, low: Node, ghost p': Tree)
    requires p.T? && p.node == parent && p.color.Red?
    requires Holds(root, x, p) && Balanced(p.left, h) && Balanced(p.right, h)
    requires (p.left.T? && p.left.node == node && IsRed(p.left) && !IsRed(p.right)) ||
             (p.right.T? && p.right.node == node && IsRed(p.right) && !IsRed(p.left))
    modifies root`rbNode, root.repr
    ensures Holds(root, x, p') && InOrder(p') == InOrder(p)
    ensures p'.T? && p'.node == top && p'.color.Red? && p'.right.T? && p'.right.node == low
    ensures IsRed(p'.right) && !IsRed(p'.left) && Balanced(p'.left, h) && Balanced(p'.right, h)
  {
    top, low, p' := parent, node, p;
    if node == parent.left {
      RotationInOrder(p.left.left, p.left.node, p.left.color, p.left.right, p.node, p.color, p.right);
      RotateRight(parent, root, x, p);
      top, low, p' := node, parent, RotatedRight(p);
    }
  }

  /** The rotations of an insertion whose parent is a left child with a black sibling. */
  method InsertTurnLeft(node: Node, parent: Node, gparent: Node, root: RbRoot,
                        ghost x: Ctx, ghost t: Tree, ghost h: nat, ghost order: seq<Node>)
    returns (next: Node, ghost x': Ctx, ghost t': Tree)
    requires Inserting(node, root, x, t, h, order)
    requires !x.Top? && x.node == parent && x.color.Red? && x.up.InLeft? && x.up.node == gparent
    requires !IsRed(x.up.right)
    modifies root`rbNode, root.repr
    ensures Inserting(next, root, x', t', h, order) && Depth(x') < Depth(x)
  {
    GrandparentExists(x, h);
    ghost var InLeft(up, _, _, u) := x.up;
    ghost var p := Join(x, t);
    Up(root, x, t);
    var top, low;
    ghost var p';
    top, low, p' := TurnOutLeft(node, parent, root, x.up, p, h);
    SameInOrder(x.up, p, p');
    Up(root, x.up, p');
    RotateRightStep(up, p', gparent, u, h);
    InsertRotateRight(top, gparent, root, up, T(p', gparent, Black, u));
    x', t' := InLeft(up, top, Black, T(p'.right, gparent, Red, u)), p'.left;
    Up(root, x', t');
    next := low;
  }

  /** One round of the insertion loop whose parent is a left child. */
  method InsertStepLeft(node: Node, parent: Node, gparent: Node, root: RbRoot,
                        ghost x: Ctx, ghost t: Tree, ghost h: nat, ghost order: seq<Node>)
    returns (next: Node, ghost x': Ctx, ghost t': Tree, ghost h': nat)
    requires Inserting(node, root, x, t, h, order)
    requires !x.Top? && x.node == parent && x.color.Red? && x.up.InLeft? && x.up.node == gparent
    modifies root`rbNode, root.repr
    ensures Inserting(next, root, x', t', h', order) && Depth(x') < Depth(x)
  {
    Up(root, x, t);
    ReadAbove(root, x.up, Join(x, t));
    var uncle := gparent.right;

    if uncle != null && uncle.color.Red? {
      ghost var InLeft(up, _, _, u) := x.up;
      ghost var p := Join(x, t);
      Up(root, x.up, p);
      RepaintStep(x, t, h);
      Repaint(uncle, parent, gparent, root, up, Join(x.up, p));
      return gparent, up, T(Blacken(p), gparent, Red, Blacken(u)), h + 1;
    }

    h' := h;
    next, x', t' := InsertTurnLeft(node, parent, gparent, root, x, t, h, order);
  }

  /** The rotations of an insertion whose parent is a right child with a black sibling. */
  method InsertTurnRight(node: Node, parent: Node, gparent: Node, root: RbRoot,
                        ghost x: Ctx, ghost t: Tree, ghost h: nat, ghost order: seq<Node>)
    returns (next: Node, ghost x': Ctx, ghost t': Tree)
    requires Inserting(node, root, x, t, h, order)
    requires !x.Top? && x.node == parent && x.color.Red? && x.up.InRight? && x.up.node == gparent
    requires !IsRed(x.up.left)
    modifies root`rbNode, root.repr
    ensures Inserting(next, root, x', t', h, order) && Depth(x') < Depth(x)
  {
    GrandparentExists(x, h);
    ghost var InRight(up, u, _, _) := x.up;
    ghost var p := Join(x, t);
    Up(root, x, t);
    var top, low;
    ghost var p';
    top, low, p' := TurnOutRight(node, parent, root, x.up, p, h);
    SameInOrder(x.up, p, p');
    Up(root, x.up, p');
    RotateLeftStep(up, p', gparent, u, h);
    InsertRotateLeft(top, gparent, root, up, T(u, gparent, Black, p'));
    x', t' := InRight(up, T(u, gparent, Red, p'.left), top, Black), p'.right;
    Up(root, x', t');
    next := low;
  }

  /** One round of the insertion loop whose parent is a right child. */
  method InsertStepRight(node: Node, parent: Node, gparent: Node, root: RbRoot,
                        ghost x: Ctx, ghost t: Tree, ghost h: nat, ghost order: seq<Node>)
    returns (next: Node, ghost x': Ctx, ghost t': Tree, ghost h': nat)
    requires Inserting(node, root, x, t, h, order)
    requires !x.Top? && x.node == parent && x.color.Red? && x.up.InRight? && x.up.node == gparent
    modifies root`rbNode, root.repr
    ensures Inserting(next, root, x', t', h', order) && Depth(x') < Depth(x)
  {
    Up(root, x, t);
    ReadAbove(root, x.up, Join(x, t));
    var uncle := gparent.left;

    if uncle != null && uncle.color.Red? {
      ghost var InRight(up, u, _, _) := x.up;
      ghost var p := Join(x, t);
      Up(root, x.up, p);
      RepaintStep(x, t, h);
      Repaint(uncle, parent, gparent, root, up, Join(x.up, p));
      return gparent, up, T(Blacken(u), gparent, Red, Blacken(p)), h + 1;
    }

    h' := h;
    next, x', t' := InsertTurnRight(node, parent, gparent, root, x, t, h, order);
  }

  /**
   * The tree is a red-black tree but for the red leaf `node` in the hole of
   * `x`, which may sit below a red node or be the root.
   */
  ghost predicate JustLinked(t: Tree, x: Ctx, node: Node)
  {
    Plug(x, T(Leaf, node, Red, Leaf)) == t && CtxBalanced(x, 0, false)
  }

  /** `rb_insert_color`. */
  method InsertColor(node: Node, root: RbRoot, ghost hole: Ctx)
    requires Represents(root, root.tree) && JustLinked(root.tree, hole, node)
    modifies root`rbNode, root`tree, root.repr
    ensures Valid(root) && InOrder(root.tree) == old(InOrder(root.tree))
  {
    ghost var x, t, h := hole, T(Leaf, node, Red, Leaf), 0;
    ghost var order := InOrder(root.tree);
    HoldsPlug(root, x, t);
    var n, parent := node, node.parent;

    while parent != null && parent.color.Red?
      invariant Inserting(n, root, x, t, h, order) && parent == n.parent
      decreases Depth(x)
    {
      ReadAbove(root, x, t);
      GrandparentExists(x, h);
      Up(root, x, t);
      ReadAbove(root, x.up, Join(x, t));
      var gparent := parent.parent;
      if parent == gparent.left {
        n, x, t, h := InsertStepLeft(n, parent, gparent, root, x, t, h, order);
      } else {
        n, x, t, h := InsertStepRight(n, parent, gparent, root, x, t, h, order);
      }
      parent := n.parent;
    }

    assert !x.Top? ==> x.color.Black?;
    PaintRoot(root, x, t, h);
  }

  method PaintRoot(root: RbRoot, ghost x: Ctx, ghost t: Tree, ghost h: nat)
    requires Holds(root, x, t)
    requires IsRed(t) && Balanced(t, h) && CtxBalanced(x, h, false) && (x.Top? || x.color.Black?)
    modifies root`tree, root.repr
    ensures Valid(root) && InOrder(root.tree) == InOrder(Plug(x, t))
  {
    root.tree := FinishInsert(x, t, h);
    HoldsPlug(root, x, t);
    SetColor(root.rbNode, Black, root, Top, Plug(x, t));
  }

  /** Painting the root black ends the insertion. */
  lemma {:induction false} FinishInsert(x: Ctx, t: Tree, h: nat) returns (w: Tree)
    requires IsRed(t) && Balanced(t, h) && CtxBalanced(x, h, false) && (x.Top? || x.color.Black?)
    ensures w == Blacken(Plug(x, t)) && RedBlack(w) && InOrder(w) == InOrder(Plug(x, t))
  {
    w := Blacken(Plug(x, t));
    if x.Top? {
      assert Balanced(w, h + 1);
    } else {
      PlugBalanced(x, t, h);
    }
  }

  /**
   * The state of the removal loop: the subtree `t` is one black node short in
   * a context that is balanced around a subtree without the shortage.
   */
  ghost predicate Erasing(root: RbRoot, x: Ctx, t: Tree, h: nat, order: seq<Node>)
    reads root, root.repr
  {
    Holds(root, x, t) && Deficit(t, h) && CtxBalanced(x, h + 1, false) && InOrder(Plug(x, t)) == order
  }

  /** The loop ends at a red subtree; otherwise the shortage moves up. */
  ghost function EraseMeasure(x: Ctx, t: Tree): nat { if IsRed(t) then 0 else Depth(x) }

  /** What the fields of the sibling say about its subtree. */
  lemma ReadSibling(root: RbRoot, x: Ctx, t: Tree)
    requires Holds(root, x, t) && !x.Top?
    ensures var s := if x.InLeft? then x.right else x.left;
      s.T? ==> (
        s.node in root.repr && s.node.color == s.color &&
        s.node.left == Root(s.left) && s.node.right == Root(s.right) &&
        (s.left.T? ==> s.left.node.color == s.left.color) && (s.right.T? ==> s.right.node.color == s.right.color))
  {
    var s := if x.InLeft? then x.right else x.left;
    assert Links(s, x.node);
    assert s.T? ==> Links(s.left, s.node) && Links(s.right, s.node);
  }

  /** A red sibling is rotated above `parent`; the next sibling is black. */
  method EraseRedSiblingLeft(parent: Node, sibling: Node, root: RbRoot,
                          ghost x: Ctx, ghost t: Tree, ghost h: nat, ghost order: seq<Node>)
    returns (ghost x': Ctx)
    requires Erasing(root, x, t, h, order) && x.InLeft? && x.node == parent
    requires IsRed(x.right) && x.right.node == sibling
    modifies root`rbNode, root.repr
    ensures Erasing(root, x', t, h, order) && x'.InLeft? && x'.node == parent && x'.color.Red? && !IsRed(x'.right)
  {
    SiblingExists(x, h);
    ghost var s := x.right;
    ghost var xs := InRight(x.up, t, parent, Black);
    Up(root, x, t);
    Up(root, xs, s);
    SetColor(sibling, Black, root, xs, s);
    Up(root, xs, Blacken(s));
    SetColor(parent, Red, root, x.up, T(t, parent, Black, Blacken(s)));
    ghost var p := T(t, parent, Red, Blacken(s));
    RotateLeft(parent, root, x.up, p);
    RotationInOrder(p.left, p.node, p.color, p.right.left, p.right.node, p.right.color, p.right.right);
    SameInOrder(x.up, Join(x, t), RotatedLeft(p));
    ghost var low := T(t, parent, Red, s.left);
    ghost var above := InLeft(x.up, sibling, Black, s.right);
    Up(root, above, low);
    x' := InLeft(above, parent, Red, s.left);
    Up(root, x', t);
  }

  /** Two black nephews: the sibling turns red and the shortage moves to `parent`. */
  method EraseBlackNephewsLeft(parent: Node, sibling: Node, root: RbRoot,
                            ghost x: Ctx, ghost t: Tree, ghost h: nat, ghost order: seq<Node>)
    returns (ghost t': Tree, ghost h': nat)
    requires Erasing(root, x, t, h, order) && !IsRed(t) && x.InLeft? && x.node == parent
    requires x.right.T? && x.right.node == sibling && !IsRed(x.right) && !IsRed(x.right.left) && !IsRed(x.right.right)
    modifies root.repr
    ensures Erasing(root, x.up, t', h', order)
    ensures t'.T? && t'.node == parent && t'.color == x.color
  {
    SiblingExists(x, h);
    BlackNephewsLeft(x, t, h);
    ghost var s := x.right;
    ghost var s' := s.(color := Red);
    ghost var xs := InRight(x.up, t, parent, x.color);
    Up(root, x, t);
    Up(root, xs, s);
    SetColor(sibling, Red, root, xs, s);
    Up(root, xs, s');
    t', h' := T(t, parent, x.color, s'), if x.color.Red? then h else h + 1;
  }

  lemma BlackNephewsLeft(x: Ctx, t: Tree, h: nat)
    requires Balanced(t, h) && !IsRed(t) && CtxBalanced(x, h + 1, false) && x.InLeft?
    requires x.right.T? && !IsRed(x.right) && !IsRed(x.right.left) && !IsRed(x.right.right)
    ensures var t' := T(t, x.node, x.color, x.right.(color := Red));
      var h' := if x.color.Red? then h else h + 1;
      Deficit(t', h') && CtxBalanced(x.up, h' + 1, false) && InOrder(Plug(x.up, t')) == InOrder(Plug(x, t))
  {
    SiblingExists(x, h);
    var s' := x.right.(color := Red);
    var t' := T(t, x.node, x.color, s');
    assert Balanced(s', h);
    assert Balanced(Blacken(t'), h + 1);
    SameInOrder(x.up, Join(x, t), t');
  }

  /** A near red nephew is rotated above the sibling, so that the far one is red. */
  method EraseTurnLeft(parent: Node, sibling: Node, root: RbRoot,
                    ghost x: Ctx, ghost t: Tree, ghost h: nat, ghost order: seq<Node>)
    returns (ghost x': Ctx)
    requires Erasing(root, x, t, h, order) && x.InLeft? && x.node == parent
    requires x.right.T? && x.right.node == sibling && !IsRed(x.right) && IsRed(x.right.left) && !IsRed(x.right.right)
    modifies root`rbNode, root.repr
    ensures Erasing(root, x', t, h, order) && x'.InLeft? && x'.node == parent && x'.up == x.up && x'.color == x.color
    ensures x'.right.T? && !IsRed(x'.right) && IsRed(x'.right.right)
  {
    SiblingExists(x, h);
    ghost var s := x.right;
    ghost var n := s.left;
    assert s.color.Black?;
    ghost var xs := InRight(x.up, t, parent, x.color);
    ghost var xn := InLeft(xs, sibling, Black, s.right);
    Up(root, x, t);
    Up(root, xs, s);
    Up(root, xn, n);
    SetColor(sibling.left, Black, root, xn, n);
    Up(root, xn, Blacken(n));
    SetColor(sibling, Red, root, xs, T(Blacken(n), sibling, Black, s.right));
    ghost var s' := T(Blacken(n), sibling, Red, s.right);
    RotateRight(sibling, root, xs, s');
    TurnNephewLeft(s, h);
    x' := InLeft(x.up, parent, x.color, RotatedRight(s'));
    Up(root, xs, RotatedRight(s'));
    Up(root, x', t);
    SameInOrder(xs, s, RotatedRight(s'));
  }

  lemma TurnNephewLeft(s: Tree, h: nat)
    requires s.T? && s.color.Black? && Balanced(s, h + 1) && IsRed(s.left) && !IsRed(s.right)
    ensures var s' := RotatedRight(T(Blacken(s.left), s.node, Red, s.right));
      Balanced(s', h + 1) && !IsRed(s') && IsRed(s'.right) && InOrder(s') == InOrder(s)
  {
    RotationInOrder(s.left.left, s.left.node, s.left.color, s.left.right, s.node, s.color, s.right);
  }

  /** A far red nephew pays for the shortage: the last rotation. */
  method EraseFarNephewLeft(parent: Node, sibling: Node, root: RbRoot,
                         ghost x: Ctx, ghost t: Tree, ghost h: nat, ghost order: seq<Node>)
    returns (ghost w: Tree)
    requires Erasing(root, x, t, h, order) && !IsRed(t) && x.InLeft? && x.node == parent
    requires x.right.T? && x.right.node == sibling && !IsRed(x.right) && IsRed(x.right.right)
    modifies root`rbNode, root.repr
    ensures Represents(root, w) && RedBlack(w) && InOrder(w) == order
  {
    SiblingExists(x, h);
    ghost var s, c := x.right, x.color;
    ghost var xs := InRight(x.up, t, parent, c);
    Up(root, x, t);
    Up(root, xs, s);
    SetColor(sibling, parent.color, root, xs, s);
    ghost var s1 := s.(color := c);
    Up(root, xs, s1);
    SetColor(parent, Black, root, x.up, T(t, parent, c, s1));
    ghost var xp := InRight(x.up, t, parent, Black);
    Up(root, xp, s1);
    ghost var xn := InRight(xp, s.left, sibling, c);
    Up(root, xn, s.right);
    SetColor(sibling.right, Black, root, xn, s.right);
    Up(root, xn, Blacken(s.right));
    ghost var s2 := T(s.left, sibling, c, Blacken(s.right));
    Up(root, xp, s2);
    ghost var p := T(t, parent, Black, s2);
    RotateLeft(parent, root, x.up, p);
    w := FinishEraseLeft(x, t, h);
    HoldsPlug(root, x.up, RotatedLeft(p));
  }

  /** One round of the removal loop on a left child. */
  method EraseStepLeft(parent: Node, root: RbRoot, ghost x: Ctx, ghost t: Tree, ghost h: nat, ghost order: seq<Node>)
    returns (done: bool, ghost w: Tree, ghost x': Ctx, ghost t': Tree, ghost h': nat)
    requires Erasing(root, x, t, h, order) && !IsRed(t) && x.InLeft? && x.node == parent
    modifies root`rbNode, root.repr
    ensures done ==> Represents(root, w) && RedBlack(w) && InOrder(w) == order
    ensures !done ==> Erasing(root, x', t', h', order) && Root(t') == parent
    ensures !done ==> EraseMeasure(x', t') < EraseMeasure(x, t)
  {
    SiblingExists(x, h);
    ReadAbove(root, x, t);
    var sibling := parent.right;
    x', t', h', w := x, t, h, Leaf;

    if sibling.color.Red? {
      x' := EraseRedSiblingLeft(parent, sibling, root, x, t, h, order);
      ReadAbove(root, x', t);
      sibling := parent.right;
    }

    SiblingExists(x', h);
    ReadSibling(root, x', t);
    if (sibling.left == null || sibling.left.color.Black?) &&
       (sibling.right == null || sibling.right.color.Black?) {
      done := false;
      t', h' := EraseBlackNephewsLeft(parent, sibling, root, x', t, h, order);
      x' := x'.up;
    } else {
      done := true;
      if sibling.right == null || sibling.right.color.Black? {
        x' := EraseTurnLeft(parent, sibling, root, x', t, h, order);
        ReadAbove(root, x', t);
        sibling := parent.right;
      }
      w := EraseFarNephewLeft(parent, sibling, root, x', t, h, order);
    }
  }

  lemma FinishEraseLeft(x: Ctx, t: Tree, h: nat) returns (w: Tree)
    requires Balanced(t, h) && !IsRed(t) && CtxBalanced(x, h + 1, false) && x.InLeft?
    requires x.right.T? && !IsRed(x.right) && IsRed(x.right.right)
    ensures w == Plug(x.up, T(T(t, x.node, Black, x.right.left), x.right.node, x.color, Blacken(x.right.right)))
    ensures RedBlack(w) && InOrder(w) == InOrder(Plug(x, t))
  {
    SiblingExists(x, h);
    var u := T(T(t, x.node, Black, x.right.left), x.right.node, x.color, Blacken(x.right.right));
    w := Plug(x.up, u);
    PlugBalanced(x.up, u, if x.color.Red? then h + 1 else h + 2);
    var p := Join(x, t);
    RotationInOrder(p.left, p.node, p.color, p.right.left, p.right.node, p.right.color, p.right.right);
    SameInOrder(x.up, p, u);
  }

  /** A red sibling is rotated above `parent`; the next sibling is black. */
  method EraseRedSiblingRight(parent: Node, sibling: Node, root: RbRoot,
                          ghost x: Ctx, ghost t: Tree, ghost h: nat, ghost order: seq<Node>)
    returns (ghost x': Ctx)
    requires Erasing(root, x, t, h, order) && x.InRight? && x.node == parent
    requires IsRed(x.left) && x.left.node == sibling
    modifies root`rbNode, root.repr
    ensures Erasing(root, x', t, h, order) && x'.InRight? && x'.node == parent && x'.color.Red? && !IsRed(x'.left)
  {
    SiblingExists(x, h);
    ghost var s := x.left;
    ghost var xs := InLeft(x.up, parent, Black, t);
    Up(root, x, t);
    Up(root, xs, s);
    SetColor(sibling, Black, root, xs, s);
    Up(root, xs, Blacken(s));
    SetColor(parent, Red, root, x.up, T(Blacken(s), parent, Black, t));
    ghost var p := T(Blacken(s), parent, Red, t);
    RotateRight(parent, root, x.up, p);
    RotationInOrder(p.left.left, p.left.node, p.left.color, p.left.right, p.node, p.color, p.right);
    SameInOrder(x.up, Join(x, t), RotatedRight(p));
    ghost var low := T(s.right, parent, Red, t);
    ghost var above := InRight(x.up, s.left, sibling, Black);
    Up(root, above, low);
    x' := InRight(above, s.right, parent, Red);
    Up(root, x', t);
  }

  /** Two black nephews: the sibling turns red and the shortage moves to `parent`. */
  method EraseBlackNephewsRight(parent: Node, sibling: Node, root: RbRoot,
                            ghost x: Ctx, ghost t: Tree, ghost h: nat, ghost order: seq<Node>)
    returns (ghost t': Tree, ghost h': nat)
    requires Erasing(root, x, t, h, order) && !IsRed(t) && x.InRight? && x.node == parent
    requires x.left.T? && x.left.node == sibling && !IsRed(x.left) && !IsRed(x.left.left) && !IsRed(x.left.right)
    modifies root.repr
    ensures Erasing(root, x.up, t', h', order)
    ensures t'.T? && t'.node == parent && t'.color == x.color
  {
    SiblingExists(x, h);
    BlackNephewsRight(x, t, h);
    ghost var s := x.left;
    ghost var s' := s.(color := Red);
    ghost var xs := InLeft(x.up, parent, x.color, t);
    Up(root, x, t);
    Up(root, xs, s);
    SetColor(sibling, Red, root, xs, s);
    Up(root, xs, s');
    t', h' := T(s', parent, x.color, t), if x.color.Red? then h else h + 1;
  }

  lemma BlackNephewsRight(x: Ctx, t: Tree, h: nat)
    requires Balanced(t, h) && !IsRed(t) && CtxBalanced(x, h + 1, false) && x.InRight?
    requires x.left.T? && !IsRed(x.left) && !IsRed(x.left.left) && !IsRed(x.left.right)
    ensures var t' := T(x.left.(color := Red), x.node, x.color, t);
      var h' := if x.color.Red? then h else h + 1;
      Deficit(t', h') && CtxBalanced(x.up, h' + 1, false) && InOrder(Plug(x.up, t')) == InOrder(Plug(x, t))
  {
    SiblingExists(x, h);
    var s' := x.left.(color := Red);
    var t' := T(s', x.node, x.color, t);
    assert Balanced(s', h);
    assert Balanced(Blacken(t'), h + 1);
    SameInOrder(x.up, Join(x, t), t');
  }

  /** A near red nephew is rotated above the sibling, so that the far one is red. */
  method EraseTurnRight(parent: Node, sibling: Node, root: RbRoot,
                    ghost x: Ctx, ghost t: Tree, ghost h: nat, ghost order: seq<Node>)
    returns (ghost x': Ctx)
    requires Erasing(root, x, t, h, order) && x.InRight? && x.node == parent
    requires x.left.T? && x.left.node == sibling && !IsRed(x.left) && IsRed(x.left.right) && !IsRed(x.left.left)
    modifies root`rbNode, root.repr
    ensures Erasing(root, x', t, h, order) && x'.InRight? && x'.node == parent && x'.up == x.up && x'.color == x.color
    ensures x'.left.T? && !IsRed(x'.left) && IsRed(x'.left.left)
  {
    SiblingExists(x, h);
    ghost var s := x.left;
    ghost var n := s.right;
    assert s.color.Black?;
    ghost var xs := InLeft(x.up, parent, x.color, t);
    ghost var xn := InRight(xs, s.left, sibling, Black);
    Up(root, x, t);
    Up(root, xs, s);
    Up(root, xn, n);
    SetColor(sibling.right, Black, root, xn, n);
    Up(root, xn, Blacken(n));
    SetColor(sibling, Red, root, xs, T(s.left, sibling, Black, Blacken(n)));
    ghost var s' := T(s.left, sibling, Red, Blacken(n));
    RotateLeft(sibling, root, xs, s');
    TurnNephewRight(s, h);
    x' := InRight(x.up, RotatedLeft(s'), parent, x.color);
    Up(root, xs, RotatedLeft(s'));
    Up(root, x', t);
    SameInOrder(xs, s, RotatedLeft(s'));
  }

  lemma TurnNephewRight(s: Tree, h: nat)
    requires s.T? && s.color.Black? && Balanced(s, h + 1) && IsRed(s.right) && !IsRed(s.left)
    ensures var s' := RotatedLeft(T(s.left, s.node, Red, Blacken(s.right)));
      Balanced(s', h + 1) && !IsRed(s') && IsRed(s'.left) && InOrder(s') == InOrder(s)
  {
    RotationInOrder(s.left, s.node, s.color, s.right.left, s.right.node, s.right.color, s.right.right);
  }

  /** A far red nephew pays for the shortage: the last rotation. */
  method EraseFarNephewRight(parent: Node, sibling: Node, root: RbRoot,
                         ghost x: Ctx, ghost t: Tree, ghost h: nat, ghost order: seq<Node>)
    returns (ghost w: Tree)
    requires Erasing(root, x, t, h, order) && !IsRed(t) && x.InRight? && x.node == parent
    requires x.left.T? && x.left.node == sibling && !IsRed(x.left) && IsRed(x.left.left)
    modifies root`rbNode, root.repr
    ensures Represents(root, w) && RedBlack(w) && InOrder(w) == order
  {
    SiblingExists(x, h);
    ghost var s, c := x.left, x.color;
    ghost var xs := InLeft(x.up, parent, c, t);
    Up(root, x, t);
    Up(root, xs, s);
    SetColor(sibling, parent.color, root, xs, s);
    ghost var s1 := s.(color := c);
    Up(root, xs, s1);
    SetColor(parent, Black, root, x.up, T(s1, parent, c, t));
    ghost var xp := InLeft(x.up, parent, Black, t);
    Up(root, xp, s1);
    ghost var xn := InLeft(xp, sibling, c, s.right);
    Up(root, xn, s.left);
    SetColor(sibling.left, Black, root, xn, s.left);
    Up(root, xn, Blacken(s.left));
    ghost var s2 := T(Blacken(s.left), sibling, c, s.right);
    Up(root, xp, s2);
    ghost var p := T(s2, parent, Black, t);
    RotateRight(parent, root, x.up, p);
    w := FinishEraseRight(x, t, h);
    HoldsPlug(root, x.up, RotatedRight(p));
  }

  /** One round of the removal loop on a right child. */
  method EraseStepRight(parent: Node, root: RbRoot, ghost x: Ctx, ghost t: Tree, ghost h: nat, ghost order: seq<Node>)
    returns (done: bool, ghost w: Tree, ghost x': Ctx, ghost t': Tree, ghost h': nat)
    requires Erasing(root, x, t, h, order) && !IsRed(t) && x.InRight? && x.node == parent
    modifies root`rbNode, root.repr
    ensures done ==> Represents(root, w) && RedBlack(w) && InOrder(w) == order
    ensures !done ==> Erasing(root, x', t', h', order) && Root(t') == parent
    ensures !done ==> EraseMeasure(x', t') < EraseMeasure(x, t)
  {
    SiblingExists(x, h);
    ReadAbove(root, x, t);
    var sibling := parent.left;
    x', t', h', w := x, t, h, Leaf;

    if sibling.color.Red? {
      x' := EraseRedSiblingRight(parent, sibling, root, x, t, h, order);
      ReadAbove(root, x', t);
      sibling := parent.left;
    }

    SiblingExists(x', h);
    ReadSibling(root, x', t);
    if (sibling.left == null || sibling.left.color.Black?) &&
       (sibling.right == null || sibling.right.color.Black?) {
      done := false;
      t', h' := EraseBlackNephewsRight(parent, sibling, root, x', t, h, order);
      x' := x'.up;
    } else {
      done := true;
      if sibling.left == null || sibling.left.color.Black? {
        x' := EraseTurnRight(parent, sibling, root, x', t, h, order);
        ReadAbove(root, x', t);
        sibling := parent.left;
      }
      w := EraseFarNephewRight(parent, sibling, root, x', t, h, order);
    }
  }

  lemma FinishEraseRight(x: Ctx, t: Tree, h: nat) returns (w: Tree)
    requires Balanced(t, h) && !IsRed(t) && CtxBalanced(x, h + 1, false) && x.InRight?
    requires x.left.T? && !IsRed(x.left) && IsRed(x.left.left)
    ensures w == Plug(x.up, T(Blacken(x.left.left), x.left.node, x.color, T(x.left.right, x.node, Black, t)))
    ensures RedBlack(w) && InOrder(w) == InOrder(Plug(x, t))
  {
    SiblingExists(x, h);
    var u := T(Blacken(x.left.left), x.left.node, x.color, T(x.left.right, x.node, Black, t));
    w := Plug(x.up, u);
    PlugBalanced(x.up, u, if x.color.Red? then h + 1 else h + 2);
    var p := Join(x, t);
    RotationInOrder(p.left.left, p.left.node, p.left.color, p.left.right, p.node, p.color, p.right);
    SameInOrder(x.up, p, u);
  }

  /** `rb_erase_color`. */
  method EraseColor(child: Node?, above: Node?, root: RbRoot,
                    ghost hole: Ctx, ghost sub: Tree, ghost height: nat, ghost order: seq<Node>)
    requires Erasing(root, hole, sub, height, order) && Root(sub) == child && ParentOf(hole, null) == above
    modifies root`rbNode, root`tree, root.repr
    ensures Valid(root) && InOrder(root.tree) == order
  {
    var node, parent, done := child, above, false;
    ghost var x, t, h := hole, sub, height;

    while (node == null || node.color.Black?) && node != root.rbNode
      invariant !done && Erasing(root, x, t, h, order) && Root(t) == node && ParentOf(x, null) == parent
      decreases EraseMeasure(x, t)
    {
      done, x, t, h := EraseRound(node, parent, root, x, t, h, order);
      if done {
        node := root.rbNode;
        break;
      }
      node, parent := parent, parent.parent;
    }

    if !done {
      EraseEnds(x, t, h, root.rbNode);
    }
    PaintNode(node, root, x, t);
  }

  /** One round of the removal loop. */
  method EraseRound(node: Node?, parent: Node, root: RbRoot, ghost x: Ctx, ghost t: Tree, ghost h: nat, ghost order: seq<Node>)
    returns (done: bool, ghost x': Ctx, ghost t': Tree, ghost h': nat)
    requires Erasing(root, x, t, h, order) && !IsRed(t) && Root(t) == node && ParentOf(x, null) == parent
    modifies root`rbNode, root.repr
    ensures Holds(root, x', t') && InOrder(Plug(x', t')) == order
    ensures done ==> RedBlack(Plug(x', Blacken(t'))) && Root(t') == root.rbNode
    ensures !done ==> Erasing(root, x', t', h', order) && Root(t') == parent && parent.parent == ParentOf(x', null)
    ensures !done ==> EraseMeasure(x', t') < EraseMeasure(x, t)
  {
    SiblingExists(x, h);
    ReadAbove(root, x, t);
    ghost var w: Tree;
    if parent.left == node {
      done, w, x', t', h' := EraseStepLeft(parent, root, x, t, h, order);
    } else {
      done, w, x', t', h' := EraseStepRight(parent, root, x, t, h, order);
    }
    if done {
      x', t' := Top, w;
      assert Blacken(w) == w;
    }
  }

  lemma EraseEnds(x: Ctx, t: Tree, h: nat, top: Node?)
    requires Deficit(t, h) && CtxBalanced(x, h + 1, false) && Apart(x, t) && top == TopOf(x, Root(t))
    requires IsRed(t) || Root(t) == top
    ensures RedBlack(Plug(x, Blacken(t)))
  {
    TopIsAbove(x, Root(t));
    PlugBalanced(x, Blacken(t), if IsRed(t) then h + 1 else h);
  }

  lemma TopIsAbove(x: Ctx, child: Node?)
    ensures if x.Top? then TopOf(x, child) == child else TopOf(x, child) in CtxNodes(x)
  {}

  /** The last step of a removal: the node where the loop ended is painted black. */
  method PaintNode(node: Node?, ghost root: RbRoot, ghost x: Ctx, ghost t: Tree)
    requires Holds(root, x, t) && Root(t) == node && RedBlack(Plug(x, Blacken(t)))
    modifies root`tree, root.repr
    ensures Valid(root) && InOrder(root.tree) == InOrder(Plug(x, t))
  {
    if node != null {
      SetColor(node, Black, root, x, t);
    }
    root.tree := Plug(x, Blacken(t));
    HoldsPlug(root, x, Blacken(t));
    SameInOrder(x, t, Blacken(t));
  }

  /** The end of a removal: the shortage left by a black node is repaired. */
  method Settle(child: Node?, parent: Node?, color: Color, root: RbRoot, ghost x: Ctx, ghost t: Tree, ghost h: nat)
    requires Holds(root, x, t) && Root(t) == child && ParentOf(x, null) == parent
    requires color.Black? ==> Deficit(t, h) && CtxBalanced(x, h + 1, false)
    requires color.Red? ==> Balanced(t, h) && !IsRed(t) && CtxBalanced(x, h, false)
    modifies root`rbNode, root`tree, root.repr
    ensures Valid(root) && InOrder(root.tree) == InOrder(Plug(x, t))
  {
    if color.Black? {
      EraseColor(child, parent, root, x, t, h, InOrder(Plug(x, t)));
    } else {
      HoldsPlug(root, x, t);
      PlugBalanced(x, t, h);
      root.tree := Plug(x, t);
    }
  }

  /** A node with at most one child is replaced by that child. */
  method SpliceOut(node: Node, child: Node?, root: RbRoot, ghost x: Ctx, ghost t: Tree, ghost u: Tree)
    requires Holds(root, x, t) && t.T? && t.node == node && (t.left.Leaf? || t.right.Leaf?)
    requires u == (if t.left.Leaf? then t.right else t.left) && child == Root(u)
    modifies root`rbNode, root`repr, root.repr
    ensures Holds(root, x, u) && root.repr == old(root.repr) - {node}
  {
    hide CtxNodes, CtxLinks, CtxDistinct, TopOf;
    RootApart(x, t);
    var parent := node.parent;
    if child != null {
      SetParent(child, parent, u, node, root.repr);
    }
    ReplaceChild(root, parent, node, child, x);
    root.repr := root.repr - {node};
  }

  method EraseOuter(node: Node, child: Node?, root: RbRoot, ghost x: Ctx, ghost t: Tree)
    requires RedBlack(Plug(x, t)) && Holds(root, x, t)
    requires t.T? && t.node == node && (t.left.Leaf? || t.right.Leaf?)
    requires child == Root(if t.left.Leaf? then t.right else t.left)
    modifies root, root.repr
    ensures Valid(root) && root.repr == old(root.repr) - {node}
    ensures InOrder(root.tree) == Without(InOrder(Plug(x, t)), node)
  {
    ghost var u := if t.left.Leaf? then t.right else t.left;
    ghost var h := CutBalanced(x, t);
    WithoutRoot(x, t, u);
    var parent, color := node.parent, node.color;
    SpliceOut(node, child, root, x, t, u);
    Settle(child, parent, color, root, x, u, if color.Black? then h - 1 else h);
  }

  /** The leftmost node of the subtree `t` whose parent is `p`. */
  method Leftmost(top: Node, ghost t: Tree, ghost p: Node?, ghost S: set<Node>)
    returns (node: Node, ghost i: Ctx, ghost s: Tree)
    requires t.T? && t.node == top && Links(t, p) && Nodes(t) <= S
    ensures Plug(i, s) == t && OnlyLeft(i) && s.T? && s.left.Leaf? && s.node == node
    ensures node.right == Root(s.right) && node.color == s.color
  {
    node, i, s := top, Top, t;
    LinksPlug(i, s, p);
    while node.left != null
      invariant Plug(i, s) == t && OnlyLeft(i) && s.T? && s.node == node
      invariant Links(s, ParentOf(i, p))
      decreases s
    {
      node := node.left;
      i, s := InLeft(i, s.node, s.color, s.right), s.left;
      LinksPlug(i, s, p);
    }
  }

  /** Takes the leftmost node, not being the root of the subtree, out of it. */
  method DetachMin(child: Node?, parent: Node, ghost i: Ctx, ghost s: Tree, ghost p: Node?, ghost S: set<Node>)
    requires i.InLeft? && i.node == parent && s.T? && s.left.Leaf? && child == Root(s.right)
    requires Links(Plug(i, s), p) && Distinct(Plug(i, s)) && Nodes(Plug(i, s)) <= S
    modifies CtxNodes(i), Nodes(s.right)
    ensures Links(Plug(i, s.right), p)
  {
    LinksPlug(i, s, p);
    NodesPlug(i, s);
    if child != null {
      SetParent(child, parent, s.right, s.node, S);
    }
    parent.left := child;
    LinksPlug(i, s.right, p);
  }

  /** The successor `node` gives up its place in the right subtree of `gone`. */
  method LeaveRight(gone: Node, node: Node, ghost t: Tree, ghost i: Ctx, ghost s: Tree, ghost S: set<Node>)
    returns (parent: Node, ghost rest: Tree)
    requires t.T? && t.node == gone && Distinct(t) && Nodes(t) <= S && Links(t.right, gone) && gone.right == Root(t.right)
    requires Plug(i, s) == t.right && OnlyLeft(i) && s.T? && s.node == node && s.left.Leaf?
    modifies Nodes(t.right)
    ensures rest == Plug(i, s.right) && Links(rest, node) && node.right == Root(rest)
    ensures parent == ParentOf(i, node)
  {
    rest := Plug(i, s.right);
    LinksPlug(i, s, gone);
    NodesPlug(i, s);
    LinksPlug(i, s.right, gone);
    NodesPlug(i, s.right);
    var child := node.right;
    parent := node.parent;
    if parent == gone {
      parent := node;
    } else {
      DetachMin(child, parent, i, s, gone, S);
      node.right := gone.right;
      TopIsAbove(i, Root(s.right));
      SetParent(gone.right, node, rest, gone, S);
    }
  }

  /** The successor `node` takes the place and the colour of `gone` below `p`. */
  method TakePlace(gone: Node, node: Node, ghost p: Node?, ghost t: Tree, ghost i: Ctx, ghost s: Tree, ghost S: set<Node>)
    returns (parent: Node)
    requires t.T? && t.node == gone && t.left.T? && Distinct(t) && Links(t, p) && Nodes(t) <= S
    requires Plug(i, s) == t.right && OnlyLeft(i) && s.T? && s.node == node && s.left.Leaf?
    modifies Nodes(t.left), Nodes(t.right)
    ensures Links(T(t.left, node, t.color, Plug(i, s.right)), p)
    ensures parent == ParentOf(i, node)
  {
    SuccessorNodes(Top, t, i, s);
    ghost var rest;
    parent, rest := LeaveRight(gone, node, t, i, s, S);
    Crown(gone, node, t.left, rest, S);
  }

  /** The last writes of the exchange: `node` gets the fields of `gone`. */
  method Crown(gone: Node, node: Node, ghost l: Tree, ghost r: Tree, ghost S: set<Node>)
    requires l.T? && Distinct(l) && Nodes(l) + Nodes(r) <= S && Nodes(l) !! Nodes(r) && gone.left == l.node
    requires node !in Nodes(l) && node !in Nodes(r) && gone != node && gone !in Nodes(l)
    requires Links(l, gone) && Links(r, node) && node.right == Root(r)
    modifies node, l.node
    ensures Links(T(l, node, gone.color, r), gone.parent)
  {
    node.parent, node.color := gone.parent, gone.color;
    node.left := gone.left;
    SetParent(gone.left, node, l, gone, S);
  }

  /** Where the nodes around and below the root of a subtree are. */
  lemma RootApart(x: Ctx, t: Tree)
    requires t.T? && Apart(x, t)
    ensures Distinct(t) && t.node in Nodes(t) && t.node !in CtxNodes(x)
    ensures Nodes(t.left) <= Nodes(t) && Nodes(t.right) <= Nodes(t) && t.node !in Nodes(t.left) && t.node !in Nodes(t.right)
    ensures ParentOf(x, null) != null ==> ParentOf(x, null) in CtxNodes(x)
  {}

  method Supplant(gone: Node, node: Node, root: RbRoot, ghost x: Ctx, ghost t: Tree, ghost i: Ctx, ghost s: Tree)
    returns (parent: Node)
    requires Holds(root, x, t) && t.T? && t.node == gone && t.left.T?
    requires Plug(i, s) == t.right && OnlyLeft(i) && s.T? && s.node == node && s.left.Leaf?
    modifies root`rbNode, root`repr, root.repr
    ensures Holds(root, x, T(t.left, node, t.color, Plug(i, s.right)))
    ensures parent == ParentOf(i, node) && root.repr == old(root.repr) - {gone}
  {
    hide Plug, OnlyLeft, CtxDistinct, Distinct, Nodes, CtxNodes, CtxLinks;
    RootApart(x, t);
    SuccessorNodes(x, t, i, s);
    ReplaceChild(root, gone.parent, gone, node, x);
    parent := TakePlace(gone, node, ParentOf(x, null), t, i, s, root.repr);
    root.repr := root.repr - {gone};
  }

  method EraseInner(gone: Node, root: RbRoot, ghost x: Ctx, ghost t: Tree)
    requires RedBlack(Plug(x, t)) && Holds(root, x, t)
    requires t.T? && t.node == gone && t.left.T? && t.right.T?
    modifies root, root.repr
    ensures Valid(root) && root.repr == old(root.repr) - {gone}
    ensures InOrder(root.tree) == Without(InOrder(Plug(x, t)), gone)
  {
    var node, parent;
    ghost var i, s;
    node, i, s := Leftmost(gone.right, t.right, gone, root.repr);
    var child, color := node.right, node.color;
    ghost var h, y := Successor(x, t, i, s);
    parent := Supplant(gone, node, root, x, t, i, s);
    Refocus(root, x, T(t.left, node, t.color, Plug(i, s.right)), y, s.right);
    Settle(child, parent, color, root, y, s.right, h);
  }

  /** `rb_erase`. */
  method Erase(node: Node, root: RbRoot)
    requires Valid(root) && node in root.repr
    modifies root, root.repr
    ensures Valid(root) && root.repr == old(root.repr) - {node}
    ensures InOrder(root.tree) == Without(old(InOrder(root.tree)), node)
  {
    ghost var x, t := Cut(root.tree, node);
    HoldsPlug(root, x, t);
    if node.left == null {
      EraseOuter(node, node.right, root, x, t);
    } else if node.right == null {
      EraseOuter(node, node.left, root, x, t);
    } else {
      EraseInner(node, root, x, t);
    }
  }

  method Attach(node: Node, parent: Node?, toLeft: bool, root: RbRoot, ghost x: Ctx)
    requires Holds(root, x, Leaf) && node !in root.repr
    requires ParentOf(x, null) == parent && (parent != null ==> (toLeft <==> x.InLeft?))
    modifies root`rbNode, root`repr, root.repr, node
    ensures Holds(root, x, T(Leaf, node, Red, Leaf)) && root.repr == old(root.repr) + {node}
  {
    node.parent, node.color := parent, Red;
    node.left, node.right := null, null;
    if parent == null {
      root.rbNode := node;
    } else if toLeft {
      parent.left := node;
    } else {
      parent.right := node;
    }
    root.repr := root.repr + {node};
    assert Nodes(T(Leaf, node, Red, Leaf)) == {node};
  }

  /** `rb_link_node`: the slot is the left or right field of `parent`, or the root. */
  method LinkNode(node: Node, parent: Node?, toLeft: bool, root: RbRoot, ghost x: Ctx)
    requires Valid(root) && Plug(x, Leaf) == root.tree && node !in root.repr
    requires ParentOf(x, null) == parent && (parent != null ==> (toLeft <==> x.InLeft?))
    modifies root, root.repr, node
    ensures Represents(root, root.tree) && JustLinked(root.tree, x, node) && root.repr == old(root.repr) + {node}
  {
    HoldsPlug(root, x, Leaf);
    ghost var h := CutBalanced(x, Leaf);
    Attach(node, parent, toLeft, root, x);
    root.tree := Plug(x, T(Leaf, node, Red, Leaf));
    HoldsPlug(root, x, T(Leaf, node, Red, Leaf));
  }

  /** `rb_first`. */
  method First(root: RbRoot) returns (n: Node?)
    requires Represents(root, root.tree)
    ensures n == if InOrder(root.tree) == [] then null else InOrder(root.tree)[0]
  {
    n := root.rbNode;
    if n == null { return; }
    ghost var i, s;
    n, i, s := Leftmost(n, root.tree, null, root.repr);
    LeftmostIsFirst(i, s);
  }

  /** The rightmost node of the subtree `t` whose parent is `p`. */
  method Rightmost(top: Node, ghost t: Tree, ghost p: Node?, ghost S: set<Node>)
    returns (node: Node, ghost i: Ctx, ghost s: Tree)
    requires t.T? && t.node == top && Links(t, p) && Nodes(t) <= S
    ensures Plug(i, s) == t && OnlyRight(i) && s.T? && s.right.Leaf? && s.node == node
  {
    node, i, s := top, Top, t;
    LinksPlug(i, s, p);
    while node.right != null
      invariant Plug(i, s) == t && OnlyRight(i) && s.T? && s.node == node
      invariant Links(s, ParentOf(i, p))
      decreases s
    {
      node := node.right;
      i, s := InRight(i, s.left, s.node, s.color), s.right;
      LinksPlug(i, s, p);
    }
  }

  /** `rb_last`. */
  method Last(root: RbRoot) returns (n: Node?)
    requires Represents(root, root.tree)
    ensures n == if InOrder(root.tree) == [] then null else InOrder(root.tree)[|InOrder(root.tree)| - 1]
  {
    n := root.rbNode;
    if n == null { return; }
    ghost var i, s;
    n, i, s := Rightmost(n, root.tree, null, root.repr);
    RightmostIsLast(i, s);
  }

  /** `rb_next`: the node after position `k`. */
  method Next(start: Node?, ghost root: RbRoot, ghost k: nat) returns (n: Node?)
    requires Represents(root, root.tree)
    requires start != null ==> k < |InOrder(root.tree)| && InOrder(root.tree)[k] == start
    ensures start == null ==> n == null
    ensures start != null ==> n == if k + 1 < |InOrder(root.tree)| then InOrder(root.tree)[k + 1] else null
  {
    if start == null { return null; }
    NodesInOrder(root.tree, start);
    ghost var x, t := Cut(root.tree, start);
    CutPosition(x, t, k);
    HoldsPlug(root, x, t);

    if start.right != null {
      ghost var i, s;
      n, i, s := Leftmost(start.right, t.right, start, root.repr);
      LeftmostIsFirst(i, s);
      NextBelow(x, t);
      return;
    }

    n := ClimbNext(start, root, x, t, k);
  }

  method ClimbNext(start: Node, ghost root: RbRoot, ghost hole: Ctx, ghost sub: Tree, ghost k: nat) returns (parent: Node?)
    requires Holds(root, hole, sub) && sub.T? && sub.node == start && Plug(hole, sub) == root.tree
    requires sub.right.Leaf? && |Before(hole)| + |InOrder(sub.left)| == k
    ensures k < |InOrder(root.tree)|
    ensures parent == if k + 1 < |InOrder(root.tree)| then InOrder(root.tree)[k + 1] else null
  {
    ghost var x, t := hole, sub;
    InOrderAround(x, t, 0);
    var node := start;
    parent := start.parent;
    while parent != null && node == parent.right
      invariant Holds(root, x, t) && t.T? && t.node == node && ParentOf(x, null) == parent
      invariant Plug(x, t) == root.tree && |Before(x)| + |InOrder(t)| == k + 1
      decreases x
    {
      Up(root, x, t);
      x, t := x.up, Join(x, t);
      node, parent := parent, parent.parent;
    }
    NextAbove(x, t);
  }

  /** `rb_prev`: the node before position `k`. */
  method Prev(start: Node?, ghost root: RbRoot, ghost k: nat) returns (n: Node?)
    requires Represents(root, root.tree)
    requires start != null ==> k < |InOrder(root.tree)| && InOrder(root.tree)[k] == start
    ensures start == null ==> n == null
    ensures start != null ==> n == if k > 0 then InOrder(root.tree)[k - 1] else null
  {
    if start == null { return null; }
    NodesInOrder(root.tree, start);
    ghost var x, t := Cut(root.tree, start);
    CutPosition(x, t, k);
    HoldsPlug(root, x, t);

    if start.left != null {
      ghost var i, s;
      n, i, s := Rightmost(start.left, t.left, start, root.repr);
      RightmostIsLast(i, s);
      PrevBelow(x, t);
      return;
    }

    n := ClimbPrev(start, root, x, t, k);
  }

  method ClimbPrev(start: Node, ghost root: RbRoot, ghost hole: Ctx, ghost sub: Tree, ghost k: nat) returns (parent: Node?)
    requires Holds(root, hole, sub) && sub.T? && sub.node == start && Plug(hole, sub) == root.tree
    requires sub.left.Leaf? && |Before(hole)| + |InOrder(sub.left)| == k
    ensures k < |InOrder(root.tree)|
    ensures parent == if k > 0 then InOrder(root.tree)[k - 1] else null
  {
    ghost var x, t := hole, sub;
    InOrderAround(x, t, 0);
    var node := start;
    parent := start.parent;
    while parent != null && node == parent.left
      invariant Holds(root, x, t) && t.T? && t.node == node && ParentOf(x, null) == parent
      invariant Plug(x, t) == root.tree && |Before(x)| == k
      decreases x
    {
      Up(root, x, t);
      x, t := x.up, Join(x, t);
      node, parent := parent, parent.parent;
    }
    PrevAbove(x, t);
  }
}
