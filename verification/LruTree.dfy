/**
 * A red-black tree over numbers paired with a least-recently-used list, as both AxiomFS caches
 * keep it. It refines a bounded list of items, most recently used first.
 */
module LruTree {
  import opened Lists
  import opened RbShape
  import opened TreeIndex

  /** A cached entry with its key. */
  datatype Item<E> = Item(num: nat, entry: E)

  /** The list, the keys and the entries describe the same nodes. */
  ghost predicate Agree<E>(lru: seq<Node>, key: map<Node, nat>, entries: map<Node, E>)
  {
    Unique(lru) && Elems(lru) == key.Keys == entries.Keys
  }

  ghost function View<E>(lru: seq<Node>, key: map<Node, nat>, entries: map<Node, E>): (v: seq<Item<E>>)
    requires forall n <- lru :: n in key && n in entries
    ensures |v| == |lru|
  {
    seq(|lru|, i requires 0 <= i < |lru| => Item(key[lru[i]], entries[lru[i]]))
  }

  /** The item at position `i` was used: it moves to the front with its new entry. */
  ghost predicate Used<E>(before: seq<Item<E>>, i: nat, e: E, after: seq<Item<E>>)
  {
    i < |before| && after == [Item(before[i].num, e)] + Removed(before, i)
  }

  /** The `n` most recently used items. */
  ghost function Recent<E>(s: seq<Item<E>>, n: nat): seq<Item<E>>
  {
    if |s| <= n then s else s[..n]
  }

  lemma ViewTouched<E>(lru: seq<Node>, key: map<Node, nat>, entries: map<Node, E>, i: nat, e: E)
    requires (forall n <- lru :: n in key && n in entries) && Unique(lru) && i < |lru|
    ensures View([lru[i]] + Removed(lru, i), key, entries[lru[i] := e]) ==
            [Item(key[lru[i]], e)] + Removed(View(lru, key, entries), i)
  {}

  lemma ViewRemoved<E>(lru: seq<Node>, key: map<Node, nat>, entries: map<Node, E>, i: nat)
    requires (forall n <- lru :: n in key && n in entries) && Unique(lru) && i < |lru|
    ensures forall n <- Removed(lru, i) :: n in key - {lru[i]} && n in entries - {lru[i]}
    ensures View(Removed(lru, i), key - {lru[i]}, entries - {lru[i]}) == Removed(View(lru, key, entries), i)
  {}

  /** Using the entry of `n`. */
  lemma TouchKeeps<E>(lru: seq<Node>, key: map<Node, nat>, entries: map<Node, E>, n: Node, e: E) returns (i: nat)
    requires Agree(lru, key, entries) && n in key
    ensures var entries' := entries[n := e];
      var lru' := [n] + Without(lru, n);
      Agree(lru', key, entries') && |lru'| == |lru| &&
      i < |lru| && lru[i] == n && Used(View(lru, key, entries), i, e, View(lru', key, entries'))
  {
    assert n in Elems(lru);
    i := WithoutAt(lru, n);
    MovedToFront(lru, i);
    ViewTouched(lru, key, entries, i, e);
  }

  /** Dropping the entry of `n`. */
  lemma DropKeeps<E>(lru: seq<Node>, key: map<Node, nat>, entries: map<Node, E>, n: Node) returns (i: nat)
    requires Agree(lru, key, entries) && n in key
    ensures Agree(Without(lru, n), key - {n}, entries - {n})
    ensures i < |lru| && lru[i] == n && |Without(lru, n)| == |lru| - 1
    ensures View(Without(lru, n), key - {n}, entries - {n}) == Removed(View(lru, key, entries), i)
  {
    assert n in Elems(lru);
    i := WithoutAt(lru, n);
    RemovedAt(lru, i);
    ViewRemoved(lru, key, entries, i);
  }

  lemma AddKeeps<E>(lru: seq<Node>, key: map<Node, nat>, entries: map<Node, E>, n: Node, num: nat, e: E)
    requires Agree(lru, key, entries) && n !in key
    ensures Agree([n] + lru, key[n := num], entries[n := e])
    ensures View([n] + lru, key[n := num], entries[n := e]) == [Item(num, e)] + View(lru, key, entries)
  {
    assert Elems([n] + lru) == Elems(lru) + {n};
    assert n !in Elems(lru);
  }

  class Lru<E> {
    const index: Index
    const maxEntries: nat
    var entries: map<Node, E>
    var lru: seq<Node>
    var count: nat

    constructor (maxEntries: nat)
      ensures Valid() && Contents() == [] && this.maxEntries == maxEntries
      ensures fresh(index) && fresh(index.root) && fresh(index.root.repr)
    {
      index := new Index();
      this.maxEntries := maxEntries;
      entries, lru, count := map[], [], 0;
    }

    /** Tree, list and counter describe the same at most `maxEntries` items. */
    ghost predicate Valid()
      reads this, index, index.root, index.root.repr
      ensures Valid() ==> index.key.Keys == entries.Keys == index.root.repr && count <= maxEntries
    {
      index.Valid() && Agree(lru, index.key, entries) && count == |lru| <= maxEntries
    }

    /** The cached items, most recently used first. */
    ghost function Contents(): seq<Item<E>>
      requires Valid()
      reads this, index, index.root, index.root.repr
    {
      View(lru, index.key, entries)
    }

    /** The entry of `n` becomes `e` and the most recent one. */
    method Use(n: Node, e: E) returns (ghost at: nat)
      requires Valid() && n in index.key
      modifies this`entries, this`lru
      ensures Valid() && at < |old(Contents())|
      ensures old(Contents())[at] == Item(index.key[n], old(entries)[n]) && Used(old(Contents()), at, e, Contents())
    {
      at := TouchKeeps(lru, index.key, entries, n, e);
      entries := entries[n := e];
      lru := [n] + Without(lru, n);
    }

    /** Takes an entry out of the tree and the list and releases it. */
    method Drop(n: Node) returns (ghost at: nat)
      requires Valid() && n in index.key
      modifies this`entries, this`lru, this`count, index, index.root, index.root.repr
      ensures Valid() && at < |old(lru)| && old(lru)[at] == n && lru == Without(old(lru), n) && at < |old(Contents())|
      ensures old(Contents())[at] == Item(old(index.key)[n], old(entries)[n]) && Contents() == Removed(old(Contents()), at)
      ensures index.root.repr == old(index.root.repr) - {n} && entries == old(entries) - {n}
    {
      hide Agree, Index.Valid;
      at := DropKeeps(lru, index.key, entries, n);
      index.Remove(n);
      lru := Without(lru, n);
      entries := entries - {n};
      count := count - 1;
    }

    /** The eviction loop of both caches. */
    method Evict()
      requires Valid() && maxEntries >= 1
      modifies this`entries, this`lru, this`count, index, index.root, index.root.repr
      ensures Valid() && count < maxEntries && index.root.repr <= old(index.root.repr)
      ensures Contents() == Recent(old(Contents()), maxEntries - 1)
    {
      while count >= maxEntries
        invariant Valid() && index.root.repr <= old(index.root.repr)
        invariant count <= |old(Contents())| && Contents() == old(Contents())[..count]
        invariant count < |old(Contents())| ==> count + 1 >= maxEntries
        decreases count
      {
        var oldest := lru[|lru| - 1];
        assert oldest in Elems(lru);
        ghost var before := lru;
        ghost var at := Drop(oldest);
      }
    }

    /** Links a new entry into the tree and at the head of the list. */
    method Add(n: Node, num: nat, e: E)
      requires Valid() && n !in index.root.repr && count < maxEntries
      modifies this`entries, this`lru, this`count, index, index.root, index.root.repr, n
      ensures Valid() && index.root.repr == old(index.root.repr) + {n}
      ensures Contents() == [Item(num, e)] + old(Contents())
    {
      hide Agree, Index.Valid;
      AddKeeps(lru, index.key, entries, n, num, e);
      index.Insert(n, num);
      entries := entries[n := e];
      lru := [n] + lru;
      count := count + 1;
    }
  }
}
