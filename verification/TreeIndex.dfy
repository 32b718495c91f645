/**
 * The red-black tree as a search tree: the descent loops that the caches run
 * over it, comparing the key of the entry that contains each node.
 */
module TreeIndex {
  import opened Lists
  import opened RbShape
  import opened RbTree

  /** The keys along a sequence of nodes never decrease. */
  ghost predicate Ordered(s: seq<Node>, key: map<Node, nat>)
  {
    (forall i :: 0 <= i < |s| ==> s[i] in key) &&
    forall i, j :: 0 <= i < j < |s| ==> key[s[i]] <= key[s[j]]
  }

  ghost predicate Below(s: seq<Node>, key: map<Node, nat>, k: nat)
  {
    forall i :: 0 <= i < |s| ==> s[i] in key && key[s[i]] < k
  }

  ghost predicate AtMost(s: seq<Node>, key: map<Node, nat>, k: nat)
  {
    forall i :: 0 <= i < |s| ==> s[i] in key && key[s[i]] <= k
  }

  ghost predicate Above(s: seq<Node>, key: map<Node, nat>, k: nat)
  {
    forall i :: 0 <= i < |s| ==> s[i] in key && k < key[s[i]]
  }

  /** Around any node of an ordered sequence. */
  lemma OrderedAround(a: seq<Node>, n: Node, b: seq<Node>, key: map<Node, nat>)
    requires Ordered(a + [n] + b, key)
    ensures n in key && AtMost(a, key, key[n])
    ensures forall k: nat :: k < key[n] ==> Above([n] + b, key, k)
  {
    var s := a + [n] + b;
    assert s[|a|] == n;
    assert forall i :: 0 <= i < |a| ==> s[i] == a[i];
    assert forall i :: 0 <= i < |b| ==> s[|a| + 1 + i] == b[i];
  }

  lemma OrderedWithout(a: seq<Node>, n: Node, b: seq<Node>, key: map<Node, nat>)
    requires Ordered(a + [n] + b, key)
    ensures Ordered(a + b, key)
  {
    var s, r := a + [n] + b, a + b;
    forall i | 0 <= i < |r|
      ensures r[i] == s[if i < |a| then i else i + 1]
    {}
  }

  lemma OrderedInsert(a: seq<Node>, n: Node, b: seq<Node>, key: map<Node, nat>, k: nat)
    requires Ordered(a + b, key) && n !in key && AtMost(a, key, k) && Above(b, key, k)
    ensures Ordered(a + [n] + b, key[n := k])
  {
    var s, r := a + [n] + b, a + b;
    forall i | 0 <= i < |s| && i != |a|
      ensures s[i] == r[if i < |a| then i else i - 1]
    {}
  }

  /** The two ways to continue a descent from `t` keep what has been ruled out. */
  lemma Descend(x: Ctx, t: Tree, key: map<Node, nat>)
    requires t.T? && Ordered(InOrder(Plug(x, t)), key)
    ensures t.node in key
    ensures var left := InLeft(x, t.node, t.color, t.right);
      Plug(left, t.left) == Plug(x, t) && Before(left) == Before(x) &&
      forall k: nat :: k < key[t.node] ==> Above(After(left), key, k)
    ensures var right := InRight(x, t.left, t.node, t.color);
      Plug(right, t.right) == Plug(x, t) && After(right) == After(x) &&
      AtMost(Before(right), key, key[t.node])
  {
    InOrderPlug(x, t);
    var a, b := Before(x) + InOrder(t.left), InOrder(t.right) + After(x);
    Regroup(Before(x), InOrder(t.left), t.node, InOrder(t.right), After(x));
    OrderedAround(a, t.node, b, key);
    assert [t.node] + b == [t.node] + InOrder(t.right) + After(x);
  }

  lemma WithoutNode(a: seq<Node>, n: Node, b: seq<Node>, t: Tree)
    requires Distinct(t) && InOrder(t) == a + [n] + b
    ensures Without(InOrder(t), n) == a + b && n !in a && n !in b
  {
    forall i | 0 <= i < |a|
      ensures a[i] != n
    {
      InOrderDistinct(t, i, |a|);
    }
    forall i | 0 <= i < |b|
      ensures b[i] != n
    {
      InOrderDistinct(t, |a|, |a| + 1 + i);
    }
    WithoutMiddle(a, n, b);
  }

  /** Linking a leaf where the descent for its key ended keeps the order. */
  lemma OrderedSlot(x: Ctx, n: Node, key: map<Node, nat>, k: nat)
    requires Ordered(InOrder(Plug(x, Leaf)), key) && n !in key
    requires AtMost(Before(x), key, k) && Above(After(x), key, k)
    ensures Ordered(InOrder(Plug(x, T(Leaf, n, Red, Leaf))), key[n := k])
  {
    InOrderPlug(x, Leaf);
    InOrderPlug(x, T(Leaf, n, Red, Leaf));
    assert Before(x) + [] + After(x) == Before(x) + After(x);
    assert InOrder(T(Leaf, n, Red, Leaf)) == [n];
    OrderedInsert(Before(x), n, After(x), key, k);
  }

  lemma OrderedRemove(t: Tree, n: Node, key: map<Node, nat>)
    requires Distinct(t) && n in Nodes(t) && Ordered(InOrder(t), key)
    ensures Ordered(Without(InOrder(t), n), key - {n})
  {
    var x, s := Cut(t, n);
    InOrderPlug(x, s);
    Regroup(Before(x), InOrder(s.left), n, InOrder(s.right), After(x));
    var a, b := Before(x) + InOrder(s.left), InOrder(s.right) + After(x);
    OrderedWithout(a, n, b, key);
    WithoutNode(a, n, b, t);
  }

  /** A search tree: a tree root and the key of the entry around each node. */
  class Index {
    const root: RbRoot
    var key: map<Node, nat>

    constructor ()
      ensures Valid() && Order() == [] && fresh(root)
    {
      root := new RbRoot();
      key := map[];
    }

    ghost function Order(): seq<Node>
      reads root
    {
      InOrder(root.tree)
    }

    ghost predicate Valid()
      reads this, root, root.repr
    {
      RbTree.Valid(root) && key.Keys == root.repr && Ordered(Order(), key)
    }

    /** The descent for a key: some node that has it, if any has. */
    method Find(k: nat) returns (n: Node?)
      requires Valid()
      ensures n == null ==> forall m :: m in key ==> key[m] != k
      ensures n != null ==> n in key && key[n] == k
    {
      n := root.rbNode;
      ghost var x, t := Top, root.tree;
      while n != null
        invariant Links(t, ParentOf(x, null)) && Root(t) == n && Plug(x, t) == root.tree
        invariant Below(Before(x), key, k) && Above(After(x), key, k)
        decreases t
      {
        Descend(x, t, key);
        NodesPlug(x, t);
        if k < key[n] {
          n := n.left;
          x, t := InLeft(x, t.node, t.color, t.right), t.left;
        } else if k > key[n] {
          n := n.right;
          x, t := InRight(x, t.left, t.node, t.color), t.right;
        } else {
          return;
        }
      }
      Absent(x, k);
    }

    lemma Absent(x: Ctx, k: nat)
      requires Valid() && Plug(x, Leaf) == root.tree && Below(Before(x), key, k) && Above(After(x), key, k)
      ensures forall m :: m in key ==> key[m] != k
    {
      InOrderPlug(x, Leaf);
      assert Order() == Before(x) + After(x);
      forall m | m in key
        ensures key[m] != k
      {
        NodesInOrder(root.tree, m);
      }
    }

    /** The descent for a slot: after every key not above `k`. */
    method FindSlot(k: nat) returns (parent: Node?, toLeft: bool, ghost x: Ctx)
      requires Valid()
      ensures Plug(x, Leaf) == root.tree && ParentOf(x, null) == parent
      ensures parent != null ==> (toLeft <==> x.InLeft?)
      ensures AtMost(Before(x), key, k) && Above(After(x), key, k)
    {
      var at := root.rbNode;
      parent, toLeft, x := null, false, Top;
      ghost var t := root.tree;
      while at != null
        invariant Links(t, ParentOf(x, null)) && Root(t) == at && Plug(x, t) == root.tree
        invariant ParentOf(x, null) == parent && (parent != null ==> (toLeft <==> x.InLeft?))
        invariant AtMost(Before(x), key, k) && Above(After(x), key, k)
        decreases t
      {
        Descend(x, t, key);
        NodesPlug(x, t);
        parent := at;
        if k < key[at] {
          at, toLeft := at.left, true;
          x, t := InLeft(x, t.node, t.color, t.right), t.left;
        } else {
          at, toLeft := at.right, false;
          x, t := InRight(x, t.left, t.node, t.color), t.right;
        }
      }
    }

    /** Links a new node at the slot of its key and rebalances. */
    method Insert(node: Node, k: nat)
      requires Valid() && node !in key
      modifies this, root, root.repr, node
      ensures Valid() && key == old(key)[node := k]
      ensures root.repr == old(root.repr) + {node}
    {
      hide Ordered, AtMost, Above, Represents, RedBlack, InOrder, Plug, Before, After, ParentOf;
      var parent, toLeft;
      ghost var x;
      parent, toLeft, x := FindSlot(k);
      OrderedSlot(x, node, key, k);
      LinkNode(node, parent, toLeft, root, x);
      InsertColor(node, root, x);
      key := key[node := k];
    }

    /** Takes a node out of the tree. */
    method Remove(node: Node)
      requires Valid() && node in key
      modifies this, root, root.repr
      ensures Valid() && key == old(key) - {node}
      ensures root.repr == old(root.repr) - {node}
    {
      OrderedRemove(root.tree, node, key);
      Erase(node, root);
      key := key - {node};
    }
  }
}
