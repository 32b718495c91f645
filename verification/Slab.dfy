/**
 * The slab allocator: caches of equal objects carved out of page runs, each run with a
 * freelist threaded through object indices. Addresses are relative to the direct map.
 */
module Slab {
  import opened Common
  import opened Arith
  import opened Lists

  const HEADER: nat := 48
  const LAST: nat := 0xFFFF_FFFF

  /** `ALIGN_UP`. */
  function AlignUp(size: nat, align: nat): (a: nat)
    requires align > 0
    ensures size <= a < size + align
  {
    if size % align == 0 then size else size - size % align + align
  }

  function SlabSize(aligned: nat): nat
  {
    if aligned <= PAGE_SIZE / 8 then PAGE_SIZE
    else if aligned <= PAGE_SIZE then PAGE_SIZE * 2
    else PageEnd(aligned + HEADER)
  }

  function PerSlab(aligned: nat): nat
  {
    (SlabSize(aligned) - HEADER) / (aligned + 4)
  }

  /** The rounded size is a multiple of the alignment. */
  lemma AlignUpDivides(size: nat, align: nat)
    requires align > 0
    ensures AlignUp(size, align) % align == 0
  {
    var q := size / align;
    assert size == q * align + size % align;
    if size % align != 0 {
      assert AlignUp(size, align) == (q + 1) * align;
      Multiple(q + 1, align);
    }
  }

  /** Small objects share a page, larger ones two, and an object beyond a page gets as few pages as hold it. */
  lemma SlabSizeMeans(aligned: nat)
    ensures aligned <= 512 ==> SlabSize(aligned) == 4096
    ensures 512 < aligned <= 4096 ==> SlabSize(aligned) == 8192
    ensures aligned > 4096 ==> SlabSize(aligned) % 4096 == 0 && aligned + 48 <= SlabSize(aligned) < aligned + 48 + 4096
  {}

  /** Header, objects and freelist fit into the slab with no room for another object, and the indices fit into 32 bits. */
  lemma SlabFits(aligned: nat)
    ensures HEADER + (PerSlab(aligned) + 1) * (aligned + 4) > SlabSize(aligned)
    ensures HEADER + PerSlab(aligned) * aligned + 4 * PerSlab(aligned) <= SlabSize(aligned)
    ensures SlabSize(aligned) % PAGE_SIZE == 0 && SlabSize(aligned) > 0 && PerSlab(aligned) < LAST
  {
    Quotient(SlabSize(aligned) - HEADER, aligned + 4);
    NoMore(SlabSize(aligned) - HEADER, aligned + 4);
    Spread(PerSlab(aligned), aligned);
    assert aligned > PAGE_SIZE ==> SlabSize(aligned) - HEADER < 2 * (aligned + 4);
  }

  lemma NoMore(a: nat, b: nat)
    requires b > 0
    ensures (a / b + 1) * b > a
  {
    assert a == a / b * b + a % b;
    assert (a / b + 1) * b == a / b * b + b;
  }

  lemma Spread(n: nat, aligned: nat)
    ensures n * (aligned + 4) == n * aligned + 4 * n
  {
  }

  lemma RoundUp(a: nat)
    requires a % 8 == 0
    ensures if a % PAGE_SIZE == 0 then PageEnd(a) == a else PageEnd(a) >= a + 8
  {
    var k := a / 8;
    assert a == 8 * k && a % PAGE_SIZE == 8 * (k % 512);
  }

  /** A cache can be created unless its slab would have no room left for the freelist. */
  lemma CreationFails(aligned: nat)
    requires aligned % 8 == 0
    ensures PerSlab(aligned) == 0 <==> aligned > PAGE_SIZE && (aligned + HEADER) % PAGE_SIZE == 0
  {
    Quotient(SlabSize(aligned) - HEADER, aligned + 4);
    RoundUp(aligned + HEADER);
  }

  /** Indices have different addresses exactly when objects have a size. */
  lemma AddressesDiffer(aligned: nat)
    ensures (forall i: nat, j: nat :: i < j < PerSlab(aligned) ==> i * aligned != j * aligned) <==> aligned > 0
  {
    if aligned > 0 {
      forall i: nat, j: nat | i < j < PerSlab(aligned) ensures i * aligned != j * aligned { Step(i, j, aligned); }
    } else {
      assert PerSlab(0) == 1012;
      assert 0 * 0 == 1 * 0;
    }
  }

  /** Following `links` from `head` visits exactly `chain` and then meets the end marker. */
  ghost predicate Chained(links: seq<nat>, head: nat, chain: seq<nat>)
    decreases |chain|
  {
    if chain == [] then head == LAST
    else head == chain[0] && head < |links| && Chained(links, links[head], chain[1..])
  }

  lemma {:induction false} ChainedElsewhere(links: seq<nat>, head: nat, chain: seq<nat>, i: nat, v: nat)
    requires Chained(links, head, chain) && i < |links| && i !in chain
    ensures Chained(links[i := v], head, chain)
    decreases |chain|
  {
    if chain != [] {
      ChainedElsewhere(links, links[head], chain[1..], i, v);
    }
  }

  /** Following the links from `head` meets the end marker at some time. */
  ghost predicate Ends(links: seq<nat>, head: nat)
  {
    exists chain :: Chained(links, head, chain)
  }

  lemma {:induction false} ChainIsOnly(links: seq<nat>, head: nat, a: seq<nat>, b: seq<nat>)
    requires Chained(links, head, a) && Chained(links, head, b) && |links| <= LAST
    ensures a == b
    decreases |a|
  {
    if a != [] {
      ChainIsOnly(links, links[head], a[1..], b[1..]);
      assert a == [a[0]] + a[1..] && b == [b[0]] + b[1..];
    }
  }

  /**
   * Putting the index of an object back leaves a freelist that ends, if and only if the index was
   * not on it: an object that is freed twice closes the list into a circle.
   */
  lemma PutEnds(links: seq<nat>, head: nat, chain: seq<nat>, i: nat)
    requires Chained(links, head, chain) && Unique(chain) && i < |links| <= LAST
    ensures Ends(links[i := head], i) <==> i !in chain
  {
    if i !in chain {
      PutChain(links, head, chain, i);
    } else {
      var links' := links[i := head];
      forall c ensures !Chained(links', i, c) { NoEnd(links, head, chain, i, c); }
    }
  }

  /** The chain with an index in front that was not on it. */
  lemma PutChain(links: seq<nat>, head: nat, chain: seq<nat>, i: nat)
    requires Chained(links, head, chain) && Unique(chain) && i < |links| && i !in chain
    ensures Chained(links[i := head], i, [i] + chain) && Unique([i] + chain)
  {
    ChainedElsewhere(links, head, chain, i, head);
    UniquePush(chain, i);
    assert ([i] + chain)[1..] == chain;
  }

  /** Up to its element `i` the old chain is followed under the new links too. */
  lemma {:induction false} Walk(links: seq<nat>, v: nat, head: nat, chain: seq<nat>, i: nat, k: nat, c: seq<nat>)
    requires Chained(links, head, chain) && Unique(chain) && i < |links| <= LAST && k < |chain| && chain[k] == i
    requires Chained(links[i := v], head, c)
    ensures k <= |c| && Chained(links[i := v], i, c[k..])
    decreases k
  {
    if k == 0 {
      assert c[0..] == c;
    } else {
      assert head == chain[0] != chain[k];
      Walk(links, v, links[head], chain[1..], i, k - 1, c[1..]);
      assert c[1..][k - 1..] == c[k..];
    }
  }

  lemma NoEnd(links: seq<nat>, head: nat, chain: seq<nat>, i: nat, c: seq<nat>)
    requires Chained(links, head, chain) && Unique(chain) && i < |links| <= LAST && i in chain
    ensures !Chained(links[i := head], i, c)
  {
    var k :| 0 <= k < |chain| && chain[k] == i;
    if Chained(links[i := head], i, c) {
      Walk(links, head, head, chain, i, k, c[1..]);
      ChainIsOnly(links[i := head], i, c, c[1..][k..]);
    }
  }

  ghost function Range(lo: nat, hi: nat): (s: seq<nat>)
    requires lo <= hi
    ensures |s| == hi - lo && forall k :: 0 <= k < |s| ==> s[k] == lo + k
  {
    seq(hi - lo, k requires 0 <= k < hi - lo => lo + k)
  }

  lemma {:induction false} ChainedRange(links: seq<nat>, k: nat)
    requires k < |links| && (forall i :: 0 <= i < |links| - 1 ==> links[i] == i + 1) && links[|links| - 1] == LAST
    ensures Chained(links, k, Range(k, |links|))
    decreases |links| - k
  {
    var r := Range(k, |links|);
    if k + 1 < |links| {
      ChainedRange(links, k + 1);
      assert r[1..] == Range(k + 1, |links|);
    } else {
      assert r[1..] == [];
    }
  }

  /** `struct slab`; its freelist and objects lie in the pages that start at `page`. */
  class Slab {
    const cache: Cache
    const page: nat
    var inuse: nat
    var freeIdx: nat
    var freelist: seq<nat>
    ghost var chain: seq<nat>
    ghost var used: set<nat>

    function Base(): nat { page * PAGE_SIZE + HEADER }

    function Obj(i: nat): nat { Base() + i * cache.aligned }

    /** The chain holds exactly the indices that are not in use. */
    ghost predicate Valid()
      reads this
      ensures Valid() ==> inuse <= cache.count
    {
      |freelist| == cache.count && Chained(freelist, freeIdx, chain) && Unique(chain) &&
      (forall i: nat :: i in used || i in chain ==> i < cache.count) &&
      (forall i: nat :: i < cache.count ==> (i in used <==> i !in chain)) &&
      inuse == |used| && inuse + |chain| == cache.count
    }

    constructor (c: Cache, p: nat)
      requires 0 < c.count < LAST
      ensures cache == c && page == p && Valid() && inuse == 0 && used == {}
    {
      cache, page, inuse, freeIdx := c, p, 0, 0;
      chain, used := Range(0, c.count), {};
      freelist := [];
      new;
      for i := 0 to c.count
        modifies `freelist
        invariant |freelist| == i && forall k :: 0 <= k < i ==> freelist[k] == k + 1
      {
        freelist := freelist + [i + 1];
      }
      freelist := freelist[c.count - 1 := LAST];
      ChainedRange(freelist, 0);
      forall i: nat | i < c.count ensures i in chain { assert chain[i] == i; }
    }

    /** `slab_alloc_obj`; `LAST` stands for the null pointer. */
    method Take() returns (i: nat)
      requires Valid() && cache.count < LAST
      modifies this
      ensures Valid() && i == old(freeIdx)
      ensures old(inuse) == cache.count ==> i == LAST && inuse == old(inuse) && used == old(used)
      ensures old(inuse) < cache.count ==> i < cache.count && i !in old(used) && used == old(used) + {i} && inuse == old(inuse) + 1
    {
      if freeIdx == LAST {
        return LAST;
      }
      i := freeIdx;
      freeIdx := freelist[i];
      inuse := inuse + 1;
      chain, used := chain[1..], used + {i};
      assert old(chain) == [i] + chain;
      assert old(chain)[0] in old(chain) && forall x :: x in chain ==> x in old(chain);
    }

    lemma HeadIsFree()
      requires Valid() && inuse < cache.count
      ensures freeIdx < cache.count && freeIdx !in used
    {
      assert chain[0] in chain;
    }

    /** `slab_free_obj` on the object with index `i`; the slab stays valid exactly if the object was in use. */
    method Put(i: nat)
      requires Valid() && i < cache.count <= LAST && inuse > 0
      modifies this
      ensures inuse == old(inuse) - 1 && (Valid() <==> i in old(used))
      ensures Ends(freelist, freeIdx) <==> i in old(used)
      ensures i in old(used) ==> used == old(used) - {i}
    {
      hide Chained, Ends, Unique;
      PutEnds(freelist, freeIdx, chain, i);
      if i in used {
        PutChain(freelist, freeIdx, chain, i);
      }
      freelist := freelist[i := freeIdx];
      freeIdx := i;
      inuse := inuse - 1;
      if i in used {
        chain, used := [i] + chain, used - {i};
      }
      ValidEnds();
    }

    lemma ValidEnds()
      ensures Valid() ==> Ends(freelist, freeIdx)
    {}
  }

  /** A page of the slab's run. */
  predicate Owns(s: Slab, p: nat) { s.page <= p < s.page + s.cache.pages }

  ghost predicate Disjoint(s: Slab, t: Slab) { s.page + s.cache.pages <= t.page || t.page + t.cache.pages <= s.page }

  ghost predicate Apart(slabs: set<Slab>)
  {
    forall s, t :: s in slabs && t in slabs && s != t ==> Disjoint(s, t)
  }

  lemma ApartAdd(slabs: set<Slab>, s: Slab)
    requires Apart(slabs) && forall t :: t in slabs ==> Disjoint(s, t)
    ensures Apart(slabs + {s})
  {
  }

  lemma Inside(s: Slab, i: nat)
    requires s.cache.Sized() && i < s.cache.count
    ensures s.Base() <= s.Obj(i) && s.Obj(i) + s.cache.aligned <= s.Base() + s.cache.count * s.cache.aligned
    ensures s.Base() + s.cache.count * s.cache.aligned + 4 * s.cache.count <= (s.page + s.cache.pages) * PAGE_SIZE
  {
    Step(i, s.cache.count, s.cache.aligned);
  }

  /** Two different objects never overlap, and neither reaches a slab's header or freelist. */
  lemma NoOverlap(s: Slab, i: nat, t: Slab, j: nat)
    requires s.cache.Sized() && t.cache.Sized() && i < s.cache.count && j < t.cache.count
    requires s == t ==> i != j
    requires s != t ==> Disjoint(s, t)
    ensures s.Obj(i) + s.cache.objectSize <= t.Obj(j) || t.Obj(j) + t.cache.objectSize <= s.Obj(i)
    ensures s.page * PAGE_SIZE + HEADER <= s.Obj(i)
    ensures s.Obj(i) + s.cache.objectSize + 4 * s.cache.count <= (s.page + s.cache.pages) * PAGE_SIZE
    ensures s.Obj(i) != t.Obj(j)
  {
    Inside(s, i);
    Inside(t, j);
    if s == t {
      if i < j { Step(i, j, s.cache.aligned); } else { Step(j, i, s.cache.aligned); }
    }
  }

  /** Every slab is on exactly one list, once. */
  ghost predicate Listed(full: seq<Slab>, partial: seq<Slab>, free: seq<Slab>, slabs: set<Slab>)
  {
    Unique(full) && Unique(partial) && Unique(free) &&
    Elems(full) !! Elems(partial) && Elems(full) !! Elems(free) && Elems(partial) !! Elems(free) &&
    slabs == Elems(full) + Elems(partial) + Elems(free)
  }

  /** `list_del` followed by `list_add` on another list. */
  lemma Moves(from: seq<Slab>, onto: seq<Slab>, rest: seq<Slab>, slabs: set<Slab>, s: Slab)
    requires Unique(from) && Unique(onto) && Elems(from) !! Elems(onto) && Elems(from) !! Elems(rest) && Elems(onto) !! Elems(rest)
    requires s in from && slabs == Elems(from) + Elems(onto) + Elems(rest)
    ensures Unique(Without(from, s)) && Unique([s] + onto) && slabs == Elems(Without(from, s)) + Elems([s] + onto) + Elems(rest)
    ensures Elems(Without(from, s)) == Elems(from) - {s} && Elems([s] + onto) == Elems(onto) + {s}
  {
    assert s in Elems(from) && s !in Elems(onto);
    UniqueWithout(from, s);
    UniquePush(onto, s);
  }

  lemma AddPartial(full: seq<Slab>, partial: seq<Slab>, free: seq<Slab>, slabs: set<Slab>, s: Slab)
    requires Listed(full, partial, free, slabs) && s !in slabs
    ensures Listed(full, [s] + partial, free, slabs + {s}) && s !in full && s !in free
  {
    assert s !in Elems(full) && s !in Elems(partial) && s !in Elems(free);
    UniquePush(partial, s);
  }

  lemma MoveFree(full: seq<Slab>, partial: seq<Slab>, free: seq<Slab>, slabs: set<Slab>, s: Slab)
    requires Listed(full, partial, free, slabs) && s in free
    ensures Listed(full, [s] + partial, Without(free, s), slabs) && Elems(Without(free, s)) == Elems(free) - {s}
    ensures s in slabs && s !in full
  {
    hide Unique;
    assert s in Elems(free);
    Moves(free, partial, full, slabs, s);
    assert Elems(full) !! Elems([s] + partial);
  }

  lemma MoveFull(full: seq<Slab>, partial: seq<Slab>, free: seq<Slab>, slabs: set<Slab>, s: Slab)
    requires Listed(full, partial, free, slabs) && s in full
    ensures Listed(Without(full, s), [s] + partial, free, slabs) && Elems(Without(full, s)) == Elems(full) - {s}
    ensures s !in free && forall t: Slab :: t in Without(full, s) <==> t in full && t != s
  {
    hide Unique;
    assert s in Elems(full);
    Moves(full, partial, free, slabs, s);
    assert Elems(free) !! Elems([s] + partial);
    assert forall t: Slab :: t in Without(full, s) <==> t in Elems(Without(full, s));
  }

  lemma MovePartial(full: seq<Slab>, partial: seq<Slab>, free: seq<Slab>, slabs: set<Slab>, s: Slab)
    requires Listed(full, partial, free, slabs) && s in partial
    ensures Listed([s] + full, Without(partial, s), free, slabs) && Listed(full, Without(partial, s), [s] + free, slabs)
    ensures s !in free && s !in full && s in slabs
  {
    hide Unique;
    assert s in Elems(partial);
    Moves(partial, full, free, slabs, s);
    Moves(partial, free, full, slabs, s);
    assert Elems(free) !! Elems([s] + full) && Elems(full) !! Elems([s] + free);
  }

  lemma DropListed(full: seq<Slab>, partial: seq<Slab>, free: seq<Slab>, slabs: set<Slab>)
    requires Listed(full, partial, free, slabs) && free != []
    ensures Listed(full, partial, free[1..], slabs - {free[0]})
    ensures forall t: Slab :: t in slabs - {free[0]} && t in free ==> t in free[1..]
  {
    hide Unique;
    UniqueWithout(free, free[0]);
    assert Without(free, free[0]) == free[1..];
    assert free[0] in Elems(free);
    assert forall t: Slab :: t in free && t != free[0] ==> t in Elems(free[1..]);
  }

  /** The addresses of the objects in use. */
  ghost function LiveIn(slabs: set<Slab>): set<nat>
    reads slabs
  {
    set s, i | s in slabs && i in s.used :: s.Obj(i)
  }

  lemma LiveEmpty(slabs: set<Slab>, s: Slab)
    requires s.used == {}
    ensures LiveIn(slabs + {s}) == LiveIn(slabs)
  {
  }

  ghost function Objs(s: Slab, used: set<nat>): set<nat> { set i | i in used :: s.Obj(i) }

  lemma LiveSplit(slabs: set<Slab>, s: Slab)
    requires s in slabs
    ensures LiveIn(slabs) == LiveIn(slabs - {s}) + Objs(s, s.used)
  {
    forall a | a in LiveIn(slabs) ensures a in LiveIn(slabs - {s}) + Objs(s, s.used) {
      var t, i :| t in slabs && i in t.used && t.Obj(i) == a;
      assert t == s || t in slabs - {s};
    }
  }

  lemma ObjsAdd(s: Slab, used: set<nat>, i: nat)
    ensures Objs(s, used + {i}) == Objs(s, used) + {s.Obj(i)}
  {
    assert i in used + {i};
  }

  ghost predicate Counts(n: nat, live: set<nat>) { n == |live| }

  lemma CountsOneMore(n: nat, live: set<nat>, a: nat)
    requires Counts(n, live) && a !in live
    ensures Counts(n + 1, live + {a})
  {
  }

  lemma CountsOneLess(n: nat, live: set<nat>, a: nat)
    requires Counts(n, live) && a in live
    ensures n > 0 && Counts(n - 1, live - {a})
  {
  }

  /** `slab_contains_obj`. */
  predicate Contains(s: Slab, obj: nat)
    ensures Contains(s, obj) ==> s.cache.aligned > 0 && s.Base() <= obj
  {
    s.Base() <= obj < s.Base() + s.cache.count * s.cache.aligned && s.cache.aligned > 0 &&
    (obj - s.Base()) % s.cache.aligned == 0
  }

  function IndexOf(s: Slab, obj: nat): nat
    requires s.cache.aligned > 0 && s.Base() <= obj
  {
    (obj - s.Base()) / s.cache.aligned
  }

  /** The containing slab of an address is the one it was handed out from, at the same index. */
  lemma ContainsObj(s: Slab, obj: nat)
    requires Contains(s, obj)
    ensures IndexOf(s, obj) < s.cache.count && s.Obj(IndexOf(s, obj)) == obj
  {
    var d, k := obj - s.Base(), s.cache.aligned;
    assert d == d / k * k + d % k;
    if d / k >= s.cache.count { assert d / k * k == s.cache.count * k + (d / k - s.cache.count) * k; }
  }

  lemma ObjContained(s: Slab, i: nat)
    requires s.cache.Sized() && i < s.cache.count
    ensures Contains(s, s.Obj(i)) && IndexOf(s, s.Obj(i)) == i
  {
    Inside(s, i);
    Multiple(i, s.cache.aligned);
  }

  /** `find_slab_in_list`. */
  method FindInList(list: seq<Slab>, obj: nat) returns (s: Slab?)
    ensures s != null ==> s in list && Contains(s, obj)
    ensures s == null ==> forall t :: t in list ==> !Contains(t, obj)
  {
    hide Contains;
    for i := 0 to |list|
      invariant forall k :: 0 <= k < i ==> !Contains(list[k], obj)
    {
      if Contains(list[i], obj) {
        return list[i];
      }
    }
    s := null;
  }

  /** `struct kmem_cache`. */
  class Cache {
    const objectSize: nat
    const aligned: nat
    const count: nat
    const pages: nat
    var full: seq<Slab>
    var partial: seq<Slab>
    var free: seq<Slab>
    var active: nat
    ghost var slabs: set<Slab>

    /** The sizes that creation computed leave room for header, objects and freelist. */
    predicate Sized()
      ensures Sized() ==> 0 < count < LAST && aligned > 0
    {
      0 < count < LAST && 0 < objectSize <= aligned && HEADER + count * aligned + 4 * count <= pages * PAGE_SIZE
    }

    /** `kmem_cache_create` for a size whose slab holds at least one object; the objects need a size to be told apart. */
    constructor (size: nat, align: nat)
      requires align >= 8 && PerSlab(AlignUp(size, align)) > 0
      ensures (Valid() <==> size > 0) && slabs == {} && fresh(slabs)
      ensures objectSize == size && aligned == AlignUp(size, align)
    {
      var a := AlignUp(size, align);
      SlabFits(a);
      objectSize, aligned, count, pages := size, a, PerSlab(a), SlabSize(a) / PAGE_SIZE;
      full, partial, free, slabs := [], [], [], {};
      active := 0;
    }

    /** The full list holds exactly the full slabs; the free list holds only empty ones. */
    ghost predicate Placed(s: Slab)
      reads `full, `free, s
    {
      s.cache == this && s.Valid() && (s in full <==> s.inuse == count) && (s in free ==> s.inuse == 0)
    }

    ghost function Live(): set<nat>
      reads `slabs, slabs
    {
      LiveIn(slabs)
    }

    ghost predicate Valid()
      reads this, slabs
      ensures Valid() ==> Sized()
    {
      Sized() && Listed(full, partial, free, slabs) && Apart(slabs) && (forall s :: s in slabs ==> Placed(s)) &&
      Counts(active, Live())
    }

    lemma Room(s: Slab)
      requires Valid() && s in partial
      ensures s in slabs && s.inuse < count
    {
      hide Live, Apart, Sized, Listed;
      MovePartial(full, partial, free, slabs, s);
    }

    /** A slab with room, if the cache has one: the first partial one, else the first free one. */
    method Pick() returns (s: Slab?)
      requires Valid()
      modifies `partial, `free
      ensures Valid()
      ensures s == null <==> old(partial) == [] && old(free) == []
      ensures s != null ==> s in slabs && s in partial && s.inuse < count
    {
      hide Live, Apart, Slab.Valid, Sized, Listed;
      s := null;
      if partial != [] {
        s := partial[0];
        Room(s);
      } else if free != [] {
        var t := free[0];
        MoveFree(full, partial, free, slabs, t);
        free := Without(free, t);
        partial := [t] + partial;
        s := t;
      }
    }

    lemma StartsPlaced(s: Slab)
      requires Sized() && Listed(full, partial, free, slabs) && s !in slabs && s.cache == this && s.Valid() && s.inuse == 0
      ensures Placed(s)
    {
      assert s !in Elems(full) && s !in Elems(free);
    }

    method Adopt(s: Slab)
      requires Valid() && s !in slabs && s.cache == this && s.Valid() && s.inuse == 0 && s.used == {}
      requires forall t :: t in slabs ==> Disjoint(s, t)
      modifies `partial, `slabs
      ensures Valid() && slabs == old(slabs) + {s} && Live() == old(Live())
      ensures s in partial
    {
      hide Slab.Valid, Sized, Listed, Apart, Disjoint, Counts, LiveIn, Placed;
      StartsPlaced(s);
      AddPartial(full, partial, free, slabs, s);
      partial := [s] + partial;
      slabs := slabs + {s};
      LiveEmpty(old(slabs), s);
      ApartAdd(old(slabs), s);
    }

    /** An index taken from a slab gives an address that was not in use. */
    lemma Unused(s: Slab, i: nat)
      requires Valid() && s in slabs && i < count && i !in s.used
      ensures s.Obj(i) !in Live()
    {
      hide Listed, Counts;
      if s.Obj(i) in Live() {
        var t, j :| t in slabs && j in t.used && t.Obj(j) == s.Obj(i);
        assert Placed(t) && Placed(s);
        NoOverlap(s, i, t, j);
        assert false;
      }
    }

    method TakeIndex(s: Slab) returns (i: nat)
      requires Valid() && s in slabs && s.inuse < count
      modifies s
      ensures s.Valid() && s.inuse == old(s.inuse) + 1
      ensures i < count && i !in old(s.used) && s.used == old(s.used) + {i}
      ensures s.Obj(i) !in old(Live()) && Live() == old(Live()) + {s.Obj(i)}
      ensures Counts(active + 1, Live())
    {
      hide Listed, Apart, LiveIn, Objs, Slab.Valid, Slab.Obj, Counts;
      assert Placed(s);
      s.HeadIsFree();
      Unused(s, s.freeIdx);
      CountsOneMore(active, Live(), s.Obj(s.freeIdx));
      LiveSplit(slabs, s);
      ObjsAdd(s, s.used, s.freeIdx);
      ghost var others := slabs - {s};
      ghost var rest := LiveIn(others);
      i := s.Take();
      assert LiveIn(others) == rest;
      LiveSplit(slabs, s);
    }

    /** `kmem_cache_alloc` once it has chosen a slab. */
    method TakeFrom(s: Slab) returns (obj: nat, ghost i: nat)
      requires Valid() && s in partial && s in slabs
      modifies `full, `partial, `active, s
      ensures Valid()
      ensures i < count && obj == s.Obj(i) && i !in old(s.used) && s.used == old(s.used) + {i}
      ensures obj !in old(Live()) && Live() == old(Live()) + {obj}
    {
      hide Listed, Apart, Live, Slab.Valid, Slab.Obj, Counts;
      Room(s);
      MovePartial(full, partial, free, slabs, s);
      var k := TakeIndex(s);
      i := k;
      obj := s.Obj(k);
      active := active + 1;
      if s.inuse == count {
        partial := Without(partial, s);
        full := [s] + full;
      }
    }

    /** No other object in use has the address of this one. */
    lemma Alone(s: Slab, i: nat)
      requires Valid() && s in slabs && i in s.used
      ensures i < count && s.Obj(i) !in LiveIn(slabs - {s}) && s.Obj(i) !in Objs(s, s.used - {i})
    {
      hide Listed, Counts;
      assert Placed(s);
      forall t, j | t in slabs - {s} && j in t.used ensures t.Obj(j) != s.Obj(i) {
        assert Placed(t);
        NoOverlap(s, i, t, j);
      }
      forall j | j in s.used - {i} ensures s.Obj(j) != s.Obj(i) {
        NoOverlap(s, i, s, j);
      }
    }

    method PutIndex(s: Slab, i: nat)
      requires Valid() && s in slabs && i < count && s.inuse > 0
      modifies s
      ensures s.inuse == old(s.inuse) - 1 && (s.Valid() <==> i in old(s.used))
      ensures i in old(s.used) ==> s.used == old(s.used) - {i} && Live() == old(Live()) - {s.Obj(i)}
      ensures i in old(s.used) ==> active > 0 && Counts(active - 1, Live())
    {
      hide Listed, Apart, LiveIn, Objs, Slab.Valid, Slab.Obj, Counts;
      assert Placed(s);
      ghost var others := slabs - {s};
      ghost var rest := LiveIn(others);
      if i in s.used {
        Alone(s, i);
        LiveSplit(slabs, s);
        ObjsAdd(s, s.used - {i}, i);
        assert s.used - {i} + {i} == s.used;
        CountsOneLess(active, Live(), s.Obj(i));
      }
      s.Put(i);
      assert LiveIn(others) == rest;
      LiveSplit(slabs, s);
    }

    /** `kmem_cache_free` once it has found the owning slab; an object that is not in use spoils the slab. */
    method Return(s: Slab, i: nat)
      requires Valid() && s in slabs && i < count && s.inuse > 0
      modifies `full, `partial, `free, `active, s
      ensures Valid() <==> i in old(s.used)
      ensures s.Valid() <==> i in old(s.used)
      ensures i in old(s.used) ==> s.used == old(s.used) - {i} && Live() == old(Live()) - {s.Obj(i)}
    {
      hide Listed, Apart, Live, Slab.Valid, Slab.Obj, Counts, Sized;
      assert Placed(s);
      var wasFull := s.inuse == count;
      PutIndex(s, i);
      if active > 0 {
        active := active - 1;
      }
      if wasFull {
        MoveFull(full, partial, free, slabs, s);
        full := Without(full, s);
        partial := [s] + partial;
      } else if s.inuse == 0 {
        if s !in free {
          Emptied(s);
          MovePartial(full, partial, free, slabs, s);
        }
        partial := Without(partial, s);
        free := [s] + free;
      }
      assert Placed(s) ==> s.Valid();
    }

    lemma Emptied(s: Slab)
      requires Listed(full, partial, free, slabs) && s in slabs && s !in full && s !in free
      ensures s in partial
    {
      assert s in Elems(full) + Elems(partial) + Elems(free);
    }

    /** `find_slab_in_cache`. */
    method Find(obj: nat) returns (s: Slab?)
      requires Valid()
      ensures s != null ==> s in slabs && Contains(s, obj)
      ensures s == null ==> forall t :: t in slabs ==> !Contains(t, obj)
    {
      hide Apart, Live, Slab.Valid, Counts, Sized, Contains;
      s := FindInList(partial, obj);
      if s == null {
        s := FindInList(full, obj);
      }
      if s == null {
        s := FindInList(free, obj);
      }
      forall t | t in slabs ensures t in partial || t in full || t in free {
        assert t in Elems(full) + Elems(partial) + Elems(free);
      }
      assert s != null && (s in partial || s in full || s in free) ==> s in Elems(full) + Elems(partial) + Elems(free);
    }

    /** Takes the first empty slab off the free list. */
    method DropFree() returns (s: Slab)
      requires Valid() && free != []
      modifies `free, `slabs
      ensures Valid() && s == old(free)[0] && free == old(free)[1..]
      ensures s in old(slabs) && slabs == old(slabs) - {s} && Live() == old(Live()) && s.used == {}
    {
      hide LiveIn, Counts, Sized;
      s := free[0];
      assert s in Elems(free);
      assert Placed(s);
      LiveSplit(slabs, s);
      assert Objs(s, s.used) == {};
      DropListed(full, partial, free, slabs);
      free := free[1..];
      slabs := slabs - {s};
    }
  }
}
