/** The cache of policy decisions. */
module PolicyCache {
  import opened Common
  import Arith
  import opened Lists
  import opened RbShape
  import opened RbTree
  import opened TreeIndex
  import opened LruTree

  /** Who wants to do what to which file. */
  datatype Request = Request(uid: nat, gid: nat, inode: nat, op: nat)

  datatype Decision = Decision(request: Request, result: int, expiry: nat)

  type Cached = Item<Decision>

  function Hash(r: Request): nat
  {
    (((r.uid * 31 + r.gid) % U64 * 31 + r.inode) % U64 * 31 + r.op) % U64
  }

  /** The hash as one sum. */
  lemma HashIsSum(r: Request)
    ensures Hash(r) == (r.uid * 29791 + r.gid * 961 + r.inode * 31 + r.op) % U64
  {
    Folds(r.uid * 31 + r.gid, r.inode);
    Folds((r.uid * 31 + r.gid) * 31 + r.inode, r.op);
  }

  lemma Folds(x: nat, y: nat)
    ensures (x % U64 * 31 + y) % U64 == (x * 31 + y) % U64
  {
    var q := x / U64;
    assert x * 31 + y == x % U64 * 31 + y + 31 * q * U64;
    Arith.AddMultiple(x % U64 * 31 + y, 31 * q, U64);
  }

  ghost function Others(s: seq<Cached>, inode: nat): seq<Cached>
  {
    if s == [] then []
    else (if s[0].entry.request.inode == inode then [] else [s[0]]) + Others(s[1..], inode)
  }

  ghost predicate Clean(s: seq<Cached>, i: nat, inode: nat)
  {
    i <= |s| && forall k :: 0 <= k < i ==> s[k].entry.request.inode != inode
  }

  /** Every decision is filed under the hash of its request. */
  ghost predicate Hashed(s: seq<Cached>)
  {
    forall i :: 0 <= i < |s| ==> s[i].num == Hash(s[i].entry.request)
  }

  /** The item at `i` is for the request and no other has its hash. */
  ghost predicate Sole(s: seq<Cached>, i: nat, r: Request)
    ensures Sole(s, i, r) ==> i < |s|
  {
    i < |s| && s[i].entry.request == r && forall j :: 0 <= j < |s| && s[j].num == Hash(r) ==> j == i
  }

  lemma SoleAt(s: seq<Cached>, i: nat, at: nat, r: Request)
    requires Hashed(s) && Sole(s, i, r) && at < |s| && s[at].entry.request == r
    ensures i == at
  {
    hide Hash;
  }

  lemma HashedInsert(s: seq<Cached>, max: nat, d: Decision)
    requires Hashed(s)
    ensures Hashed([Item(Hash(d.request), d)] + Recent(s, max)) && Hashed(Recent(s, max)) && [] + Recent(s, max) == Recent(s, max)
  {
    hide Hash;
  }

  class Cache {
    const store: Lru<Decision>
    const ttl: nat
    var hits: nat
    var misses: nat

    constructor (maxEntries: nat, ttl: nat)
      ensures Valid() && Contents() == [] && store.maxEntries == maxEntries && this.ttl == ttl
      ensures fresh(store) && fresh(store.index) && fresh(store.index.root) && fresh(store.index.root.repr)
    {
      store := new Lru(maxEntries);
      this.ttl, hits, misses := ttl, 0, 0;
    }

    ghost predicate Valid()
      reads store, store.index, store.index.root, store.index.root.repr
    {
      store.Valid() && Hashed(store.Contents())
    }

    /** The node's entry is for the request and no other node has its hash. */
    ghost predicate Only(n: Node, r: Request)
      reads store, store.index
    {
      n in store.entries && n in store.index.key && store.entries[n].request == r && store.index.key[n] == Hash(r) &&
      forall m :: m in store.index.key && store.index.key[m] == Hash(r) ==> m == n
    }

    ghost function Contents(): (c: seq<Cached>)
      requires Valid()
      reads store, store.index, store.index.root, store.index.root.repr
      ensures |c| == |store.lru|
    {
      store.Contents()
    }

    /** The walk of `policy_cache_lookup`: past entries that only share the hash, until one for this request. */
    method Search(r: Request) returns (n: Node?)
      requires Valid()
      ensures n != null ==> n in store.entries && store.entries[n].request == r
      ensures forall m :: Only(m, r) ==> n == m
    {
      hide Hashed, Hash;
      var hash := Hash(r);
      n := store.index.root.rbNode;
      ghost var x, t := Top, store.index.root.tree;
      ghost var unique := exists m :: Only(m, r);
      while n != null
        invariant Links(t, ParentOf(x, null)) && Root(t) == n && Plug(x, t) == store.index.root.tree
        invariant unique ==> Below(Before(x), store.index.key, hash) && Above(After(x), store.index.key, hash)
        decreases t
      {
        Descend(x, t, store.index.key);
        NodesPlug(x, t);
        var here := store.index.key[n];
        if hash < here {
          n := n.left;
          x, t := InLeft(x, t.node, t.color, t.right), t.left;
        } else {
          if hash == here && store.entries[n].request == r {
            return;
          }
          n := n.right;
          x, t := InRight(x, t.left, t.node, t.color), t.right;
        }
      }
      if unique { store.index.Absent(x, hash); }
    }

    lemma SoleNode(i: nat, r: Request)
      requires Valid() && Sole(Contents(), i, r)
      ensures i < |store.lru| && Only(store.lru[i], r) && store.entries[store.lru[i]] == Contents()[i].entry
    {
      hide Hash;
      var n := store.lru[i];
      assert n in Elems(store.lru);
      assert Contents()[i].num == Hash(r);
      forall m | m in store.index.key && store.index.key[m] == Hash(r) ensures m == n {
        assert m in Elems(store.lru);
        var j :| 0 <= j < |store.lru| && store.lru[j] == m;
        assert Contents()[j].num == Hash(r);
      }
    }

    lemma ContentsHashed()
      requires Valid()
      ensures Hashed(Contents())
    {}

    /** A use that leaves the entry as it is. */
    method Touch(n: Node) returns (ghost at: nat)
      requires Valid() && n in store.entries
      modifies store`entries, store`lru
      ensures Valid() && at < |old(Contents())| && old(Contents())[at].entry == old(store.entries)[n]
      ensures Used(old(Contents()), at, old(store.entries)[n], Contents())
    {
      hide Hash;
      at := store.Use(n, store.entries[n]);
    }

    /** `policy_cache_lookup`: a hit is a decision for exactly this request that has not expired. */
    method Lookup(r: Request, now: nat) returns (found: Option<int>, ghost at: nat)
      requires Valid()
      modifies this, store`entries, store`lru
      ensures Valid()
      ensures found.None? ==> Contents() == old(Contents()) && misses == old(misses) + 1 && hits == old(hits)
      ensures found.None? ==> forall i: nat :: Sole(old(Contents()), i, r) ==> old(Contents())[i].entry.expiry <= now
      ensures found.Some? ==> at < |old(Contents())| && hits == old(hits) + 1 && misses == old(misses)
      ensures found.Some? ==> forall i: nat :: Sole(old(Contents()), i, r) ==> i == at
      ensures found.Some? ==>
        var e := old(Contents())[at].entry;
        e.request == r && e.result == found.value && now < e.expiry && Used(old(Contents()), at, e, Contents())
    {
      hide Valid, Contents, Only, Sole, Used, Hashed;
      at := 0;
      ghost var s := Contents();
      ContentsHashed();
      var n := Search(r);
      forall i: nat | Sole(Contents(), i, r) ensures n != null && n in store.entries && store.entries[n] == Contents()[i].entry {
        SoleNode(i, r);
      }
      if n != null {
        var e := store.entries[n];
        if now < e.expiry {
          at := Touch(n);
          forall i: nat | Sole(s, i, r) ensures i == at { SoleAt(s, i, at, r); }
          hits := hits + 1;
          return Some(e.result), at;
        }
      }
      misses := misses + 1;
      found := None;
    }

    /** `policy_cache_insert`; `memory` says whether the allocation succeeds. */
    method Insert(r: Request, result: int, now: nat, memory: bool)
      requires Valid() && store.maxEntries >= 1
      modifies store, store.index, store.index.root, store.index.root.repr
      ensures Valid() && fresh(store.index.root.repr - old(store.index.root.repr))
      ensures Contents() ==
        (if memory then [Item(Hash(r), Decision(r, result, now + ttl))] else []) + Recent(old(Contents()), store.maxEntries - 1)
    {
      hide Hash, Hashed, Recent;
      HashedInsert(store.Contents(), store.maxEntries - 1, Decision(r, result, now + ttl));
      store.Evict();
      if memory {
        var n := new Node();
        store.Add(n, Hash(r), Decision(r, result, now + ttl));
      }
    }

    /** `policy_cache_invalidate`: exactly the decisions about the inode go; the others keep their order. */
    method Invalidate(inode: nat)
      requires Valid()
      modifies store`entries, store`lru, store`count, store.index, store.index.root, store.index.root.repr
      ensures Valid() && store.index.root.repr <= old(store.index.root.repr)
      ensures Contents() == Others(old(Contents()), inode)
    {
      var i: nat := 0;
      while i < |store.lru|
        invariant Valid() && i <= |store.lru| && store.index.root.repr <= old(store.index.root.repr)
        invariant Others(Contents(), inode) == Others(old(Contents()), inode) && Clean(Contents(), i, inode)
        decreases |store.lru| - i
      {
        hide Valid, Contents, Others, Clean;
        i := InvalidateAt(i, inode);
      }
      OthersAll(Contents(), inode);
    }

    method InvalidateAt(i: nat, inode: nat) returns (j: nat)
      requires Valid() && i < |store.lru| && Clean(Contents(), i, inode)
      modifies store`entries, store`lru, store`count, store.index, store.index.root, store.index.root.repr
      ensures Valid() && j <= |store.lru| && |store.lru| - j < |old(store.lru)| - i
      ensures store.index.root.repr <= old(store.index.root.repr)
      ensures Others(Contents(), inode) == Others(old(Contents()), inode) && Clean(Contents(), j, inode)
    {
      hide Valid, Contents, Removed, Others;
      var here := InodeAt(i);
      if here == inode {
        OthersRemoved(Contents(), i, inode);
        RemovedBefore(Contents(), i);
        DropAt(i);
        j := i;
      } else {
        j := i + 1;
      }
    }

    method InodeAt(i: nat) returns (inode: nat)
      requires Valid() && i < |store.lru|
      ensures inode == Contents()[i].entry.request.inode
    {
      var n := store.lru[i];
      assert n in Elems(store.lru);
      inode := store.entries[n].request.inode;
    }

    method DropAt(i: nat)
      requires Valid() && i < |store.lru|
      modifies store`entries, store`lru, store`count, store.index, store.index.root, store.index.root.repr
      ensures Valid() && store.index.root.repr <= old(store.index.root.repr) && |store.lru| == |old(store.lru)| - 1
      ensures i < |old(Contents())| && Contents() == Removed(old(Contents()), i)
    {
      var n := store.lru[i];
      assert n in Elems(store.lru);
      ghost var at := store.Drop(n);
    }

    /** `policy_cache_flush`. */
    method Flush()
      requires Valid()
      modifies store`entries, store`lru, store`count, store.index, store.index.root, store.index.root.repr
      ensures Valid() && store.index.root.repr <= old(store.index.root.repr) && Contents() == []
    {
      while store.lru != []
        invariant Valid() && store.index.root.repr <= old(store.index.root.repr)
        decreases |store.lru|
      {
        DropAt(0);
      }
    }
  }

  lemma RemovedBefore(s: seq<Cached>, i: nat)
    requires i < |s|
    ensures |Removed(s, i)| == |s| - 1 && forall k :: 0 <= k < i ==> Removed(s, i)[k] == s[k]
  {
  }

  lemma {:induction false} OthersRemoved(s: seq<Cached>, i: nat, inode: nat)
    requires i < |s| && s[i].entry.request.inode == inode
    ensures Others(Removed(s, i), inode) == Others(s, inode)
  {
    if i == 0 {
      assert Removed(s, 0) == s[1..];
    } else {
      OthersRemoved(s[1..], i - 1, inode);
      assert Removed(s, i)[1..] == Removed(s[1..], i - 1);
    }
  }

  lemma {:induction false} OthersAll(s: seq<Cached>, inode: nat)
    requires forall k :: 0 <= k < |s| ==> s[k].entry.request.inode != inode
    ensures Others(s, inode) == s
  {
    if s != [] { OthersAll(s[1..], inode); }
  }
}
