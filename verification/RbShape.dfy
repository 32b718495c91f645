/**
 * The shape of a red-black tree of intrusive nodes, as a value.
 *
 * A `Tree` records which node sits where and with which colour; a `Ctx` is the
 * same tree with one subtree cut out, read from the hole up to the root. The
 * rebalancing loops of the tree walk upwards, so their state is a pair
 * (context, subtree) and the whole tree is `Plug(ctx, t)`.
 */
module RbShape {
  import opened Lists

  datatype Color = Red | Black

  /** `struct rb_node`; parent and colour share one word in the original. */
  class Node {
    var parent: Node?
    var color: Color
    var left: Node?
    var right: Node?

    constructor ()
    {
      parent, color, left, right := null, Red, null, null;
    }
  }

  datatype Tree = Leaf | T(left: Tree, node: Node, color: Color, right: Tree)

  datatype Ctx =
    | Top
    | InLeft(up: Ctx, node: Node, color: Color, right: Tree)
    | InRight(up: Ctx, left: Tree, node: Node, color: Color)

  ghost function Root(t: Tree): Node? { if t.Leaf? then null else t.node }

  ghost predicate IsRed(t: Tree) { t.T? && t.color.Red? }

  ghost function Blacken(t: Tree): Tree { if t.Leaf? then t else t.(color := Black) }

  ghost function Nodes(t: Tree): set<Node>
  {
    match t
    case Leaf => {}
    case T(l, n, _, r) => Nodes(l) + {n} + Nodes(r)
  }

  ghost function CtxNodes(x: Ctx): set<Node>
  {
    match x
    case Top => {}
    case InLeft(up, n, _, r) => CtxNodes(up) + {n} + Nodes(r)
    case InRight(up, l, n, _) => CtxNodes(up) + {n} + Nodes(l)
  }

  ghost function InOrder(t: Tree): seq<Node>
  {
    match t
    case Leaf => []
    case T(l, n, _, r) => InOrder(l) + [n] + InOrder(r)
  }

  /** The two rotations: the in-order sequence does not move. */
  ghost function RotatedLeft(t: Tree): Tree
    requires t.T? && t.right.T?
  {
    T(T(t.left, t.node, t.color, t.right.left), t.right.node, t.right.color, t.right.right)
  }

  ghost function RotatedRight(t: Tree): Tree
    requires t.T? && t.left.T?
  {
    T(t.left.left, t.left.node, t.left.color, T(t.left.right, t.node, t.color, t.right))
  }

  /** Fills the hole of a context. */
  ghost function Plug(x: Ctx, t: Tree): Tree
    decreases x
  {
    match x
    case Top => t
    case InLeft(up, n, c, r) => Plug(up, T(t, n, c, r))
    case InRight(up, l, n, c) => Plug(up, T(l, n, c, t))
  }

  /** One step up from the hole. */
  ghost function Join(x: Ctx, t: Tree): Tree
    requires !x.Top?
  {
    if x.InLeft? then T(t, x.node, x.color, x.right) else T(x.left, x.node, x.color, t)
  }

  ghost function Depth(x: Ctx): nat
  {
    if x.Top? then 0 else Depth(x.up) + 1
  }

  /** The inner context placed in the hole of the outer one. */
  ghost function Append(inner: Ctx, outer: Ctx): Ctx
    decreases inner
  {
    match inner
    case Top => outer
    case InLeft(up, n, c, r) => InLeft(Append(up, outer), n, c, r)
    case InRight(up, l, n, c) => InRight(Append(up, outer), l, n, c)
  }

  /** What precedes, and what follows, the hole in the in-order sequence. */
  ghost function Before(x: Ctx): seq<Node>
  {
    match x
    case Top => []
    case InLeft(up, _, _, _) => Before(up)
    case InRight(up, l, n, _) => Before(up) + InOrder(l) + [n]
  }

  ghost function After(x: Ctx): seq<Node>
  {
    match x
    case Top => []
    case InLeft(up, n, _, r) => [n] + InOrder(r) + After(up)
    case InRight(up, _, _, _) => After(up)
  }

  /** No node occurs twice. */
  ghost predicate Distinct(t: Tree)
  {
    match t
    case Leaf => true
    case T(l, n, _, r) =>
      Distinct(l) && Distinct(r) && n !in Nodes(l) && n !in Nodes(r) && Nodes(l) !! Nodes(r)
  }

  ghost predicate CtxDistinct(x: Ctx)
  {
    match x
    case Top => true
    case InLeft(up, n, _, r) =>
      CtxDistinct(up) && Distinct(r) && n !in CtxNodes(up) && n !in Nodes(r) && CtxNodes(up) !! Nodes(r)
    case InRight(up, l, n, _) =>
      CtxDistinct(up) && Distinct(l) && n !in CtxNodes(up) && n !in Nodes(l) && CtxNodes(up) !! Nodes(l)
  }

  ghost predicate Apart(x: Ctx, t: Tree)
  {
    CtxDistinct(x) && Distinct(t) && CtxNodes(x) !! Nodes(t)
  }

  /**
   * The red-black invariants with black height `h`: no red node has a red
   * child, and every path to a leaf crosses `h` black nodes.
   */
  ghost predicate Balanced(t: Tree, h: nat)
  {
    match t
    case Leaf => h == 0
    case T(l, _, Red, r) => !IsRed(l) && !IsRed(r) && Balanced(l, h) && Balanced(r, h)
    case T(l, _, Black, r) => h > 0 && Balanced(l, h - 1) && Balanced(r, h - 1)
  }

  /**
   * Filling the hole with a balanced tree of black height `h` gives a balanced
   * tree with a black root, whatever the colour of the filler's root when
   * `anyRoot`, and for a black (or empty) filler otherwise.
   */
  ghost predicate CtxBalanced(x: Ctx, h: nat, anyRoot: bool)
    decreases x
  {
    match x
    case Top => !anyRoot
    case InLeft(up, _, Red, r) => !anyRoot && !IsRed(r) && Balanced(r, h) && CtxBalanced(up, h, true)
    case InLeft(up, _, Black, r) => Balanced(r, h) && CtxBalanced(up, h + 1, false)
    case InRight(up, l, _, Red) => !anyRoot && !IsRed(l) && Balanced(l, h) && CtxBalanced(up, h, true)
    case InRight(up, l, _, Black) => Balanced(l, h) && CtxBalanced(up, h + 1, false)
  }

  /** A red-black tree: balanced, with a black root. */
  ghost predicate RedBlack(t: Tree)
  {
    !IsRed(t) && exists h: nat :: Balanced(t, h)
  }

  lemma {:induction false} InOrderPlug(x: Ctx, t: Tree)
    ensures InOrder(Plug(x, t)) == Before(x) + InOrder(t) + After(x)
    decreases x
  {
    hide InOrder, Before, After;
    match x
    case Top => TopOrder(t);
    case InLeft(up, n, c, r) =>
      InOrderPlug(up, T(t, n, c, r));
      LeftOrder(up, n, c, r, t);
    case InRight(up, l, n, c) =>
      InOrderPlug(up, T(l, n, c, t));
      RightOrder(up, l, n, c, t);
  }

  lemma TopOrder(t: Tree)
    ensures Before(Top) + InOrder(t) + After(Top) == InOrder(t)
  {}

  lemma LeftOrder(up: Ctx, n: Node, c: Color, r: Tree, t: Tree)
    ensures Before(up) + InOrder(T(t, n, c, r)) + After(up) == Before(InLeft(up, n, c, r)) + InOrder(t) + After(InLeft(up, n, c, r))
  {
    Grouped(Before(up), InOrder(t), n, InOrder(r), After(up));
  }

  lemma RightOrder(up: Ctx, l: Tree, n: Node, c: Color, t: Tree)
    ensures Before(up) + InOrder(T(l, n, c, t)) + After(up) == Before(InRight(up, l, n, c)) + InOrder(t) + After(InRight(up, l, n, c))
  {
    Grouped(Before(up), InOrder(l), n, InOrder(t), After(up));
  }

  lemma Grouped<A>(a: seq<A>, b: seq<A>, n: A, c: seq<A>, d: seq<A>)
    ensures a + (b + [n] + c) + d == a + b + ([n] + c + d)
    ensures a + (b + [n] + c) + d == (a + b + [n]) + c + d
  {}

  /** Replacing a subtree by one with the same nodes in the same order. */
  lemma SameInOrder(x: Ctx, t: Tree, u: Tree)
    requires InOrder(t) == InOrder(u)
    ensures InOrder(Plug(x, t)) == InOrder(Plug(x, u))
  {
    InOrderPlug(x, t);
    InOrderPlug(x, u);
  }

  lemma {:induction false} NodesPlug(x: Ctx, t: Tree)
    ensures Nodes(Plug(x, t)) == CtxNodes(x) + Nodes(t)
    ensures Distinct(Plug(x, t)) <==> Apart(x, t)
    decreases x
  {
    match x
    case Top =>
    case InLeft(up, n, c, r) => NodesPlug(up, T(t, n, c, r));
    case InRight(up, l, n, c) => NodesPlug(up, T(l, n, c, t));
  }

  lemma {:induction false} NodesInOrder(t: Tree, n: Node)
    ensures n in Nodes(t) <==> n in InOrder(t)
  {
    match t
    case Leaf =>
    case T(l, _, _, r) => NodesInOrder(l, n); NodesInOrder(r, n);
  }

  lemma {:induction false} PlugAppend(inner: Ctx, outer: Ctx, t: Tree)
    ensures Plug(Append(inner, outer), t) == Plug(outer, Plug(inner, t))
    decreases inner
  {
    match inner
    case Top =>
    case InLeft(up, n, c, r) => PlugAppend(up, outer, T(t, n, c, r));
    case InRight(up, l, n, c) => PlugAppend(up, outer, T(l, n, c, t));
  }

  lemma Reassociate<A>(a: seq<A>, n: A, b: seq<A>, y: A, e: seq<A>)
    ensures (a + [n] + b) + [y] + e == a + [n] + (b + [y] + e)
  {}

  lemma RotationInOrder(a: Tree, n: Node, c: Color, b: Tree, y: Node, d: Color, e: Tree)
    ensures InOrder(T(T(a, n, c, b), y, d, e)) == InOrder(T(a, n, c, T(b, y, d, e)))
  {
    Reassociate(InOrder(a), n, InOrder(b), y, InOrder(e));
    assert InOrder(T(b, y, d, e)) == InOrder(b) + [y] + InOrder(e);
    assert InOrder(T(a, n, c, b)) == InOrder(a) + [n] + InOrder(b);
  }

  lemma RotationNodes(a: Tree, n: Node, c: Color, b: Tree, y: Node, d: Color, e: Tree)
    ensures Nodes(T(T(a, n, c, b), y, d, e)) == Nodes(T(a, n, c, T(b, y, d, e)))
  {
    assert Nodes(T(b, y, d, e)) == Nodes(b) + {y} + Nodes(e);
    assert Nodes(T(a, n, c, b)) == Nodes(a) + {n} + Nodes(b);
  }

  lemma RotationDistinct(a: Tree, n: Node, c: Color, b: Tree, y: Node, d: Color, e: Tree)
    ensures Distinct(T(T(a, n, c, b), y, d, e)) <==> Distinct(T(a, n, c, T(b, y, d, e)))
  {
    assert Nodes(T(b, y, d, e)) == Nodes(b) + {y} + Nodes(e);
    assert Nodes(T(a, n, c, b)) == Nodes(a) + {n} + Nodes(b);
    assert Distinct(T(a, n, c, b)) <==>
      Distinct(a) && Distinct(b) && n !in Nodes(a) && n !in Nodes(b) && Nodes(a) !! Nodes(b);
    assert Distinct(T(b, y, d, e)) <==>
      Distinct(b) && Distinct(e) && y !in Nodes(b) && y !in Nodes(e) && Nodes(b) !! Nodes(e);
  }

  lemma Weaken(x: Ctx, h: nat)
    requires CtxBalanced(x, h, true)
    ensures CtxBalanced(x, h, false)
  {}

  /** Filling a balanced context with a matching tree gives a red-black tree. */
  lemma {:induction false} PlugBalanced(x: Ctx, t: Tree, h: nat)
    requires Balanced(t, h) && CtxBalanced(x, h, IsRed(t))
    ensures RedBlack(Plug(x, t))
    decreases x
  {
    match x
    case Top =>
    case InLeft(up, n, c, r) =>
      PlugBalanced(up, T(t, n, c, r), if c.Red? then h else h + 1);
    case InRight(up, l, n, c) =>
      PlugBalanced(up, T(l, n, c, t), if c.Red? then h else h + 1);
  }

  /** Every way of cutting a red-black tree leaves a balanced context and tree. */
  lemma {:induction false} CutBalanced(x: Ctx, t: Tree) returns (h: nat)
    requires RedBlack(Plug(x, t))
    ensures Balanced(t, h) && CtxBalanced(x, h, IsRed(t))
    decreases x
  {
    match x
    case Top =>
      h :| Balanced(t, h);
    case InLeft(up, n, c, r) =>
      var k := CutBalanced(up, T(t, n, c, r));
      h := if c.Red? then k else k - 1;
    case InRight(up, l, n, c) =>
      var k := CutBalanced(up, T(l, n, c, t));
      h := if c.Red? then k else k - 1;
  }

  /** Red under red, uncle red: repainting moves the red root two levels up. */
  lemma RepaintStep(x: Ctx, t: Tree, h: nat)
    requires IsRed(t) && Balanced(t, h) && CtxBalanced(x, h, false)
    requires !x.Top? && x.color.Red? && !x.up.Top?
    requires IsRed(if x.up.InLeft? then x.up.right else x.up.left)
    ensures var g := Join(x.up, Join(x, t));
      var g' := T(Blacken(g.left), g.node, Red, Blacken(g.right));
      Balanced(g', h + 1) && CtxBalanced(x.up.up, h + 1, false) &&
      InOrder(Plug(x.up.up, g')) == InOrder(Plug(x, t))
  {
    var g := Join(x.up, Join(x, t));
    var g' := T(Blacken(g.left), g.node, Red, Blacken(g.right));
    SameInOrder(x.up.up, g, g');
  }

  /** Red under red on the left, uncle black: the rotation restores the balance. */
  lemma RotateRightStep(x: Ctx, p: Tree, g: Node, u: Tree, h: nat)
    requires p.T? && IsRed(p.left) && Balanced(p.left, h) && !IsRed(p.right) && Balanced(p.right, h)
    requires !IsRed(u) && Balanced(u, h) && CtxBalanced(x, h + 1, false)
    ensures var x' := InLeft(x, p.node, Black, T(p.right, g, Red, u));
      CtxBalanced(x', h, false) && InOrder(Plug(x', p.left)) == InOrder(Plug(x, T(p, g, Black, u)))
  {
    RotationInOrder(p.left, p.node, p.color, p.right, g, Black, u);
    SameInOrder(x, T(p, g, Black, u), T(p.left, p.node, Black, T(p.right, g, Red, u)));
  }

  lemma RotateLeftStep(x: Ctx, p: Tree, g: Node, u: Tree, h: nat)
    requires p.T? && IsRed(p.right) && Balanced(p.right, h) && !IsRed(p.left) && Balanced(p.left, h)
    requires !IsRed(u) && Balanced(u, h) && CtxBalanced(x, h + 1, false)
    ensures var x' := InRight(x, T(u, g, Red, p.left), p.node, Black);
      CtxBalanced(x', h, false) && InOrder(Plug(x', p.right)) == InOrder(Plug(x, T(u, g, Black, p)))
  {
    RotationInOrder(u, g, Red, p.left, p.node, Black, p.right);
    SameInOrder(x, T(u, g, Black, p), T(T(u, g, Red, p.left), p.node, Black, p.right));
  }

  /**
   * A subtree one black node short of height `h + 1`. A red root stands for
   * the missing black: painting it black makes up the height.
   */
  ghost predicate Deficit(t: Tree, h: nat)
  {
    if IsRed(t) then Balanced(Blacken(t), h + 1) else Balanced(t, h)
  }

  /** Where a subtree is one black node short, its sibling exists. */
  lemma SiblingExists(x: Ctx, h: nat)
    requires !x.Top? && CtxBalanced(x, h + 1, false)
    ensures x.InLeft? ==> x.right.T? && Balanced(x.right, h + 1)
    ensures x.InRight? ==> x.left.T? && Balanced(x.left, h + 1)
    ensures x.color.Black? ==> CtxBalanced(x.up, h + 2, false)
    ensures x.color.Red? ==> CtxBalanced(x.up, h + 1, true) && CtxBalanced(x.up, h + 1, false)
    ensures x.color.Red? ==> !IsRed(if x.InLeft? then x.right else x.left)
  {
    if x.color.Red? { Weaken(x.up, h + 1); }
  }

  /** Every node of a tree can be cut out together with its subtree. */
  lemma {:induction false} Cut(t: Tree, n: Node) returns (x: Ctx, s: Tree)
    requires n in Nodes(t)
    ensures s.T? && s.node == n && Plug(x, s) == t
    decreases t
  {
    x, s := CutBelow(t, n, Top);
  }

  lemma {:induction false} CutBelow(t: Tree, n: Node, outer: Ctx) returns (x: Ctx, s: Tree)
    requires n in Nodes(t)
    ensures s.T? && s.node == n && Plug(x, s) == Plug(outer, t)
    decreases t
  {
    var T(l, m, c, r) := t;
    if n == m {
      x, s := outer, t;
    } else if n in Nodes(l) {
      x, s := CutBelow(l, n, InLeft(outer, m, c, r));
    } else {
      x, s := CutBelow(r, n, InRight(outer, l, m, c));
    }
  }

  /** A context that runs down the left edge of a tree. */
  ghost predicate OnlyLeft(x: Ctx)
  {
    x.Top? || (x.InLeft? && OnlyLeft(x.up))
  }

  lemma OnlyLeftBefore(x: Ctx)
    requires OnlyLeft(x)
    ensures Before(x) == []
  {}

  /** Which node sits at the joint of a context does not matter for its balance. */
  lemma {:induction false} RenameJoint(inner: Ctx, x: Ctx, l: Tree, n: Node, m: Node, c: Color, h: nat, anyRoot: bool)
    ensures CtxBalanced(Append(inner, InRight(x, l, n, c)), h, anyRoot) <==>
            CtxBalanced(Append(inner, InRight(x, l, m, c)), h, anyRoot)
    decreases inner
  {
    match inner
    case Top =>
    case InLeft(up, _, Red, _) => RenameJoint(up, x, l, n, m, c, h, true);
    case InLeft(up, _, Black, _) => RenameJoint(up, x, l, n, m, c, h + 1, false);
    case InRight(up, _, _, Red) => RenameJoint(up, x, l, n, m, c, h, true);
    case InRight(up, _, _, Black) => RenameJoint(up, x, l, n, m, c, h + 1, false);
  }

  lemma Shift<A>(a: seq<A>, n: A, b: seq<A>, c: seq<A>)
    ensures a + [n] + ([] + b + c) == a + ([] + ([] + [n] + b) + c)
  {}

  /** The leftmost node of the right subtree may move to the root. */
  lemma SuccessorOrder(t: Tree, i: Ctx, s: Tree)
    requires t.T? && Plug(i, s) == t.right && OnlyLeft(i) && s.T? && s.left.Leaf?
    ensures InOrder(T(t.left, s.node, t.color, Plug(i, s.right))) == InOrder(t.left) + InOrder(t.right)
  {
    InOrderPlug(i, s);
    InOrderPlug(i, s.right);
    OnlyLeftBefore(i);
    Shift(InOrder(t.left), s.node, InOrder(s.right), After(i));
  }

  lemma DetachNodes(i: Ctx, s: Tree)
    requires s.T? && s.left.Leaf? && Distinct(Plug(i, s))
    ensures Nodes(Plug(i, s)) == Nodes(Plug(i, s.right)) + {s.node}
    ensures s.node !in Nodes(Plug(i, s.right)) && Distinct(Plug(i, s.right))
  {
    NodesPlug(i, s);
    NodesPlug(i, s.right);
  }

  lemma ReplaceRoot(x: Ctx, t: Tree, m: Node, rest: Tree)
    requires t.T? && Apart(x, t)
    requires Distinct(rest) && m !in Nodes(rest) && Nodes(t.right) == Nodes(rest) + {m}
    ensures Apart(x, T(t.left, m, t.color, rest))
    ensures Nodes(T(t.left, m, t.color, rest)) == Nodes(t) - {t.node}
  {}

  lemma SuccessorNodes(x: Ctx, t: Tree, i: Ctx, s: Tree)
    requires t.T? && Apart(x, t) && Plug(i, s) == t.right && s.T? && s.left.Leaf?
    ensures Nodes(t.right) == Nodes(Plug(i, s.right)) + {s.node} && s.node !in Nodes(Plug(i, s.right))
    ensures Apart(x, T(t.left, s.node, t.color, Plug(i, s.right)))
    ensures Nodes(T(t.left, s.node, t.color, Plug(i, s.right))) == Nodes(t) - {t.node}
  {
    DetachNodes(i, s);
    ReplaceRoot(x, t, s.node, Plug(i, s.right));
  }

  /** Balance where the leftmost node of the right subtree was. */
  lemma SuccessorBalance(x: Ctx, t: Tree, i: Ctx, s: Tree) returns (h: nat, y: Ctx)
    requires t.T? && RedBlack(Plug(x, t)) && Plug(i, s) == t.right && s.T? && s.left.Leaf?
    ensures y == Append(i, InRight(x, t.left, s.node, t.color))
    ensures Plug(y, s.right) == Plug(x, T(t.left, s.node, t.color, Plug(i, s.right)))
    ensures s.color.Black? ==> Deficit(s.right, h) && CtxBalanced(y, h + 1, false)
    ensures s.color.Red? ==> Balanced(s.right, h) && !IsRed(s.right) && CtxBalanced(y, h, false)
  {
    var z := Append(i, InRight(x, t.left, t.node, t.color));
    y := Append(i, InRight(x, t.left, s.node, t.color));
    PlugAppend(i, InRight(x, t.left, t.node, t.color), s);
    PlugAppend(i, InRight(x, t.left, s.node, t.color), s.right);
    h := CutBalanced(z, s);
    RenameJoint(i, x, t.left, s.node, t.node, t.color, h, IsRed(s));
    if s.color.Black? { h := h - 1; } else { Weaken(y, h); }
  }

  ghost predicate OnlyRight(x: Ctx)
  {
    x.Top? || (x.InRight? && OnlyRight(x.up))
  }

  lemma OnlyRightAfter(x: Ctx)
    requires OnlyRight(x)
    ensures After(x) == []
  {}

  /** The in-order sequence of a tree without shared nodes has no repetition. */
  lemma {:induction false} InOrderDistinct(t: Tree, i: nat, j: nat)
    requires Distinct(t) && i < j < |InOrder(t)|
    ensures InOrder(t)[i] != InOrder(t)[j]
  {
    var T(l, n, _, r) := t;
    var k := |InOrder(l)|;
    if j < k {
      InOrderDistinct(l, i, j);
    } else if i > k {
      InOrderDistinct(r, i - k - 1, j - k - 1);
    } else {
      NodesInOrder(l, InOrder(t)[i]);
      NodesInOrder(r, InOrder(t)[j]);
      assert i < k ==> InOrder(t)[i] == InOrder(l)[i];
      assert k < j ==> InOrder(t)[j] == InOrder(r)[j - k - 1];
    }
  }

  /** The in-order sequence around a subtree, and at its position `i`. */
  lemma InOrderAround(x: Ctx, t: Tree, i: nat)
    ensures |InOrder(Plug(x, t))| == |Before(x)| + |InOrder(t)| + |After(x)|
    ensures i < |InOrder(t)| ==> InOrder(Plug(x, t))[|Before(x)| + i] == InOrder(t)[i]
    ensures After(x) != [] ==> InOrder(Plug(x, t))[|Before(x)| + |InOrder(t)|] == After(x)[0]
    ensures Before(x) != [] ==> InOrder(Plug(x, t))[|Before(x)| - 1] == Before(x)[|Before(x)| - 1]
  {
    hide InOrder, Plug, Before, After;
    InOrderPlug(x, t);
    Middle(Before(x), InOrder(t), After(x), i);
  }

  lemma Middle<A>(a: seq<A>, b: seq<A>, c: seq<A>, i: nat)
    ensures i < |b| ==> (a + b + c)[|a| + i] == b[i]
    ensures c != [] ==> (a + b + c)[|a| + |b|] == c[0]
    ensures a != [] ==> (a + b + c)[|a| - 1] == a[|a| - 1]
  {}

  /** The leftmost and the rightmost node of a tree. */
  lemma LeftmostIsFirst(x: Ctx, t: Tree)
    requires OnlyLeft(x) && t.T? && t.left.Leaf?
    ensures InOrder(Plug(x, t)) != [] && InOrder(Plug(x, t))[0] == t.node
  {
    InOrderPlug(x, t);
    OnlyLeftBefore(x);
    assert InOrder(t)[0] == t.node;
  }

  lemma RightmostIsLast(x: Ctx, t: Tree)
    requires OnlyRight(x) && t.T? && t.right.Leaf?
    ensures InOrder(Plug(x, t)) != [] && InOrder(Plug(x, t))[|InOrder(Plug(x, t))| - 1] == t.node
  {
    InOrderPlug(x, t);
    OnlyRightAfter(x);
    assert InOrder(t)[|InOrder(t)| - 1] == t.node;
  }

  /** The neighbours of a node that has a child on that side. */
  lemma NextBelow(x: Ctx, t: Tree)
    requires t.T? && InOrder(t.right) != []
    ensures var k := |Before(x)| + |InOrder(t.left)|;
      k + 1 < |InOrder(Plug(x, t))| && InOrder(Plug(x, t))[k + 1] == InOrder(t.right)[0]
  {
    InOrderAround(InRight(x, t.left, t.node, t.color), t.right, 0);
  }

  lemma PrevBelow(x: Ctx, t: Tree)
    requires t.T? && InOrder(t.left) != []
    ensures var k := |Before(x)| + |InOrder(t.left)|;
      0 < k < |InOrder(Plug(x, t))| &&
      InOrder(Plug(x, t))[k - 1] == InOrder(t.left)[|InOrder(t.left)| - 1]
  {
    hide InOrder;
    InOrderAround(InLeft(x, t.node, t.color, t.right), t.left, |InOrder(t.left)| - 1);
  }

  /** The neighbours of a subtree, met on the way up. */
  lemma NextAbove(x: Ctx, t: Tree)
    requires x.Top? || x.InLeft?
    ensures var k := |Before(x)| + |InOrder(t)|;
      if x.Top? then k == |InOrder(Plug(x, t))| else k < |InOrder(Plug(x, t))| && InOrder(Plug(x, t))[k] == x.node
  {
    InOrderAround(x, t, 0);
  }

  lemma PrevAbove(x: Ctx, t: Tree)
    requires x.Top? || x.InRight?
    ensures var k := |Before(x)|;
      if x.Top? then k == 0 else 0 < k <= |InOrder(Plug(x, t))| && InOrder(Plug(x, t))[k - 1] == x.node
  {
    InOrderAround(x, t, 0);
  }

  /** A node found at position `k` is cut out at position `k`. */
  lemma CutPosition(x: Ctx, t: Tree, k: nat)
    requires t.T? && Distinct(Plug(x, t)) && k < |InOrder(Plug(x, t))| && InOrder(Plug(x, t))[k] == t.node
    ensures k == |Before(x)| + |InOrder(t.left)|
  {
    InOrderAround(x, t, |InOrder(t.left)|);
    var j := |Before(x)| + |InOrder(t.left)|;
    assert InOrder(t)[|InOrder(t.left)|] == t.node;
    if j < k { InOrderDistinct(Plug(x, t), j, k); }
    if k < j { InOrderDistinct(Plug(x, t), k, j); }
  }

  lemma {:induction false} BeforeNodes(x: Ctx, n: Node)
    requires n in Before(x)
    ensures n in CtxNodes(x)
  {
    match x
    case InLeft(up, _, _, _) => BeforeNodes(up, n);
    case InRight(up, l, m, _) =>
      NodesInOrder(l, n);
      if n !in InOrder(l) && n != m { BeforeNodes(up, n); }
  }

  lemma Regroup<A>(a: seq<A>, b: seq<A>, n: A, c: seq<A>, d: seq<A>)
    ensures a + (b + [n] + c) + d == (a + b) + [n] + (c + d)
    ensures a + (b + c) + d == (a + b) + (c + d)
  {}

  /** Everything the removal of a node with two children needs to know. */
  lemma Successor(x: Ctx, t: Tree, i: Ctx, s: Tree) returns (h: nat, y: Ctx)
    requires t.T? && RedBlack(Plug(x, t)) && Apart(x, t)
    requires Plug(i, s) == t.right && OnlyLeft(i) && s.T? && s.left.Leaf?
    ensures y == Append(i, InRight(x, t.left, s.node, t.color))
    ensures Plug(y, s.right) == Plug(x, T(t.left, s.node, t.color, Plug(i, s.right)))
    ensures s.color.Black? ==> Deficit(s.right, h) && CtxBalanced(y, h + 1, false)
    ensures s.color.Red? ==> Balanced(s.right, h) && !IsRed(s.right) && CtxBalanced(y, h, false)
    ensures InOrder(Plug(y, s.right)) == Without(InOrder(Plug(x, t)), t.node)
  {
    h, y := SuccessorBalance(x, t, i, s);
    SuccessorOrder(t, i, s);
    WithoutRoot(x, t, T(t.left, s.node, t.color, Plug(i, s.right)));
  }

  /** Taking a node out of a tree, given what takes its place. */
  lemma WithoutRoot(x: Ctx, t: Tree, u: Tree)
    requires t.T? && Apart(x, t) && InOrder(u) == InOrder(t.left) + InOrder(t.right)
    ensures InOrder(Plug(x, u)) == Without(InOrder(Plug(x, t)), t.node)
  {
    InOrderPlug(x, t);
    InOrderPlug(x, u);
    Regroup(Before(x), InOrder(t.left), t.node, InOrder(t.right), After(x));
    var a, b := Before(x) + InOrder(t.left), InOrder(t.right) + After(x);
    assert t.node !in a by {
      NodesInOrder(t.left, t.node);
      if t.node in Before(x) { BeforeNodes(x, t.node); }
    }
    WithoutMiddle(a, t.node, b);
  }
}
