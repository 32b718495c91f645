/** The AxiomFS block cache. */
module BlockCache {
  import opened Common
  import opened Lists
  import opened RbShape
  import opened LruTree

  /** The fields of `struct block_cache_entry` other than its key and links. */
  datatype Entry = Entry(data: Bytes, dirty: bool, lastAccess: nat)

  /** A cached block as its user sees it. */
  type Block = Item<Entry>

  /** Some cached block has the number `num`. */
  ghost predicate Has(s: seq<Block>, num: nat)
  {
    exists i :: 0 <= i < |s| && s[i].num == num
  }

  /** The block at position `i` was used: it moves to the front and nothing else changes. */
  ghost predicate Touched(before: seq<Block>, i: nat, now: nat, after: seq<Block>)
  {
    i < |before| && Used(before, i, before[i].entry.(lastAccess := now), after)
  }

  class Cache {
    const store: Lru<Entry>
    const blockSize: nat
    var hits: nat
    var misses: nat

    constructor (maxEntries: nat, blockSize: nat)
      ensures Valid() && Contents() == [] && hits == 0 && misses == 0
      ensures store.maxEntries == maxEntries && this.blockSize == blockSize
      ensures fresh(store) && fresh(store.index) && fresh(store.index.root) && fresh(store.index.root.repr)
    {
      store := new Lru(maxEntries);
      this.blockSize, hits, misses := blockSize, 0, 0;
    }

    ghost predicate Valid()
      reads store, store.index, store.index.root, store.index.root.repr
    {
      store.Valid()
    }

    /** The cached blocks, most recently used first. */
    ghost function Contents(): seq<Block>
      requires Valid()
      reads store, store.index, store.index.root, store.index.root.repr
    {
      store.Contents()
    }

    /** `block_cache_get`. */
    method Get(num: nat, now: nat) returns (r: Option<Bytes>, ghost at: nat)
      requires Valid()
      modifies this, store`entries, store`lru
      ensures Valid()
      ensures r.None? ==> !Has(old(Contents()), num) && Contents() == old(Contents())
      ensures r.Some? ==> at < |old(Contents())| && old(Contents())[at].num == num && old(Contents())[at].entry.data == r.value
      ensures r.Some? ==> Touched(old(Contents()), at, now, Contents())
      ensures hits == old(hits) + (if r.Some? then 1 else 0) && misses == old(misses) + (if r.Some? then 0 else 1)
    {
      var n := store.index.Find(num);
      at := 0;
      if n == null {
        misses := misses + 1;
        return None, 0;
      }
      var e := store.entries[n];
      at := store.Use(n, e.(lastAccess := now));
      hits := hits + 1;
      r := Some(e.data);
    }

    /** `block_cache_put`; the flags say whether the two allocations succeed. */
    method Put(num: nat, data: Bytes, dirty: bool, now: nat, entryMemory: bool, dataMemory: bool) returns (ok: bool)
      requires Valid() && store.maxEntries >= 1
      modifies store, store.index, store.index.root, store.index.root.repr
      ensures Valid() && fresh(store.index.root.repr - old(store.index.root.repr))
      ensures ok == (entryMemory && dataMemory)
      ensures ok ==> Contents() == [Item(num, Entry(data, dirty, now))] + Recent(old(Contents()), store.maxEntries - 1)
      ensures !ok ==> Contents() == Recent(old(Contents()), store.maxEntries - 1)
    {
      store.Evict();
      if !entryMemory || !dataMemory {
        return false;
      }
      var n := new Node();
      store.Add(n, num, Entry(data, dirty, now));
      ok := true;
    }

    /** `block_cache_invalidate`. */
    method Invalidate(num: nat) returns (ghost at: nat)
      requires Valid()
      modifies store`entries, store`lru, store`count, store.index, store.index.root, store.index.root.repr
      ensures Valid() && store.index.root.repr <= old(store.index.root.repr)
      ensures !Has(old(Contents()), num) ==> Contents() == old(Contents())
      ensures Has(old(Contents()), num) ==> at < |old(Contents())| && old(Contents())[at].num == num
      ensures Has(old(Contents()), num) ==> Contents() == Removed(old(Contents()), at)
    {
      var n := store.index.Find(num);
      at := 0;
      if n != null {
        at := store.Drop(n);
      }
    }
  }
}
