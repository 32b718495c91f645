/** All slab caches together, on top of the page allocator. */
module Kmem {
  import opened Common
  import opened Lists
  import opened Slab
  import Pmm

  /** No page of any slab is free. */
  ghost predicate Held(slabs: set<Slab>, free: set<nat>)
  {
    forall s, p :: s in slabs && p in free ==> !Owns(s, p)
  }

  lemma HeldLess(slabs: set<Slab>, free: set<nat>, less: set<nat>)
    requires Held(slabs, free) && less <= free
    ensures Held(slabs, less)
  {
  }

  /** Pages that were free overlap no slab. */
  lemma FreshPages(slabs: set<Slab>, free: set<nat>, s: Slab)
    requires Held(slabs, free) && s.cache.pages > 0 && (forall t :: t in slabs ==> t.cache.pages > 0)
    requires Pmm.Pages(s.page, s.page + s.cache.pages) <= free
    ensures forall t :: t in slabs ==> Disjoint(s, t)
  {
    forall t | t in slabs ensures Disjoint(s, t) {
      var p := if s.page < t.page then t.page else s.page;
      if p < s.page + s.cache.pages && p < t.page + t.cache.pages {
        assert Pmm.Between(p, s.page, s.page + s.cache.pages);
        assert p in free && Owns(t, p);
        assert false;
      }
    }
  }

  lemma HeldAdd(slabs: set<Slab>, free: set<nat>, less: set<nat>, s: Slab)
    requires Held(slabs, free) && less == free - Pmm.Pages(s.page, s.page + s.cache.pages)
    ensures Held(slabs + {s}, less)
  {
    assert forall p :: Owns(s, p) ==> Pmm.Between(p, s.page, s.page + s.cache.pages);
  }

  lemma HeldFree(slabs: set<Slab>, free: set<nat>, total: nat, s: Slab)
    requires Held(slabs, free) && s in slabs && Apart(slabs)
    ensures Held(slabs - {s}, free + Pmm.PagesBelow(total, s.page, s.page + s.cache.pages))
  {
  }

  lemma LiveUnion(a: set<Slab>, b: set<Slab>)
    ensures LiveIn(a + b) == LiveIn(a) + LiveIn(b)
  {
  }

  /** No zone has that many free pages in a row. */
  ghost predicate NoRun(bits: seq<bool>, total: nat, count: nat)
    requires |bits| == Pmm.MAX_PAGES && total <= Pmm.MAX_PAGES
  {
    forall z: Pmm.ZoneType :: !Pmm.HasRun(bits, Pmm.Start(z), Pmm.End(z, total), count)
  }

  lemma FirstElems(s: seq<Slab>, k: nat)
    requires k <= |s|
    ensures Elems(s[..0]) == {}
    ensures k < |s| ==> Elems(s[..k + 1]) == Elems(s[..k]) + {s[k]}
  {
    if k < |s| { assert s[..k + 1] == s[..k] + [s[k]]; }
  }

  /** The alignment that `kmem_cache_create` uses: at least that of a pointer, or of a cache line if asked. */
  function Alignment(align: nat, hardware: bool): (a: nat)
    ensures a >= 8 && a >= align && (hardware ==> a >= 64)
    ensures a == align || a == 8 || (hardware && a == 64)
  {
    var a := if align < 8 then 8 else align;
    if hardware && a < 64 then 64 else a
  }

  class Heap {
    const mem: Pmm.PhysMem
    var caches: seq<Cache>
    ghost var slabs: set<Slab>

    /** Each cache is valid and the slabs are exactly those of the caches. */
    ghost predicate Whole()
      reads this, caches, slabs
    {
      (forall c :: c in caches ==> c.slabs <= slabs && c.Valid()) &&
      (forall s :: s in slabs ==> s.cache in caches && s in s.cache.slabs)
    }

    ghost predicate Valid()
      reads this, mem, mem.bitmap, caches, slabs
    {
      mem.Valid() && Whole() && Apart(slabs) && Held(slabs, mem.Free())
    }

    /** The addresses of all objects in use. */
    ghost function Live(): set<nat>
      reads this, slabs
    {
      LiveIn(slabs)
    }

    constructor (m: Pmm.PhysMem)
      requires m.Valid()
      ensures Valid() && mem == m && caches == [] && slabs == {}
    {
      mem, caches, slabs := m, [], {};
    }

    /** `slab_create`. */
    method NewSlab(c: Cache) returns (s: Slab?)
      requires Valid() && c in caches
      modifies mem, mem.bitmap
      ensures Valid() && mem.Free() <= old(mem.Free())
      ensures s != null ==> fresh(s) && s.cache == c && s.Valid() && s.inuse == 0 && s.used == {}
      ensures s != null ==> (forall t :: t in slabs ==> Disjoint(s, t)) && Held(slabs + {s}, mem.Free())
      ensures s == null && 0 !in old(mem.Free()) ==> NoRun(old(mem.Bits()), mem.total, c.pages)
    {
      hide Pmm.PhysMem.Valid, Pmm.PhysMem.Free, Held, Slab.Valid, Disjoint, Cache.Valid, Apart;
      var phys, z := mem.AllocPages(c.pages);
      HeldLess(slabs, old(mem.Free()), mem.Free());
      if phys == 0 {
        return null;
      }
      s := new Slab(c, phys / PAGE_SIZE);
      assert forall t :: t in slabs ==> t.cache.Valid();
      FreshPages(slabs, old(mem.Free()), s);
      HeldAdd(slabs, old(mem.Free()), mem.Free(), s);
    }

    /** The slabs of other caches are not those of `c`. */
    lemma Separate(c: Cache, d: Cache)
      requires Whole() && c in caches && d in caches && c != d
      ensures c.slabs !! d.slabs
    {
      hide Slab.Valid, Apart, Counts, Listed, Cache.Sized, LiveIn;
      assert c.Valid() && d.Valid();
      assert forall s :: s in c.slabs ==> s.cache == c by { assert forall s :: s in c.slabs ==> c.Placed(s); }
      assert forall s :: s in d.slabs ==> s.cache == d by { assert forall s :: s in d.slabs ==> d.Placed(s); }
    }

    method Enlist(c: Cache, s: Slab)
      requires Valid() && c in caches
      requires s !in slabs && s.cache == c && s.Valid() && s.inuse == 0 && s.used == {}
      requires (forall t :: t in slabs ==> Disjoint(s, t)) && Held(slabs + {s}, mem.Free())
      modifies `slabs, c`partial, c`slabs
      ensures Valid() && Live() == old(Live()) && slabs == old(slabs) + {s}
      ensures s in c.partial && c.slabs == old(c.slabs) + {s}
    {
      hide Pmm.PhysMem.Valid, Pmm.PhysMem.Free, Held, Slab.Valid, Disjoint, Cache.Valid, Apart, LiveIn;
      ApartAdd(slabs, s);
      c.Adopt(s);
      slabs := slabs + {s};
      LiveEmpty(old(slabs), s);
    }

    /** The slab that serves the request: one with room, or a new one. */
    method Choose(c: Cache) returns (s: Slab?)
      requires Valid() && c in caches
      modifies `slabs, mem, mem.bitmap, c`partial, c`free, c`slabs
      ensures Valid() && Live() == old(Live()) && fresh(slabs - old(slabs)) && fresh(c.slabs - old(c.slabs))
      ensures s == null ==> old(c.partial) == [] && old(c.free) == []
      ensures s == null && 0 !in old(mem.Free()) ==> NoRun(old(mem.Bits()), mem.total, c.pages)
      ensures s != null ==> s in c.slabs && s in c.partial
    {
      hide Pmm.PhysMem.Valid, Pmm.PhysMem.Free, Held, Slab.Valid, Disjoint, Cache.Valid, Apart, LiveIn;
      s := c.Pick();
      if s == null {
        s := NewSlab(c);
        if s != null {
          Enlist(c, s);
        }
      }
    }

    /** No object in another slab has the address of this one. */
    lemma Elsewhere(s: Slab, i: nat, others: set<Slab>)
      requires Valid() && s in slabs && i < s.cache.count && s !in others && others <= slabs
      ensures s.Obj(i) !in LiveIn(others)
    {
      hide Pmm.PhysMem.Valid, Pmm.PhysMem.Free, Held;
      forall t, j | t in others && j in t.used ensures t.Obj(j) != s.Obj(i) {
        assert t.cache.Placed(t);
        assert s.cache.Valid();
        NoOverlap(s, i, t, j);
      }
    }

    method TakeSlot(c: Cache, s: Slab) returns (obj: nat)
      requires Valid() && c in caches && s in c.slabs && s in c.partial
      modifies c`full, c`partial, c`active, s
      ensures Valid() && obj != 0
      ensures obj !in old(Live()) && Live() == old(Live()) + {obj}
    {
      hide Pmm.PhysMem.Valid, Pmm.PhysMem.Free, Held, Slab.Valid, Slab.Obj, Cache.Valid, Apart, LiveIn;
      ghost var others := slabs - c.slabs;
      assert slabs == others + c.slabs;
      LiveUnion(others, c.slabs);
      ghost var i;
      forall d | d in caches && d != c ensures s !in d.slabs { Separate(c, d); }
      obj, i := c.TakeFrom(s);
      LiveUnion(others, c.slabs);
      Positive(s, i);
      Elsewhere(s, i, others);
    }

    lemma Positive(s: Slab, i: nat)
      ensures s.Obj(i) > 0
    {
    }

    /** `kmem_cache_alloc`. */
    method Alloc(c: Cache) returns (obj: nat)
      requires Valid() && c in caches
      modifies `slabs, mem, mem.bitmap, c, c.slabs
      ensures Valid() && fresh(slabs - old(slabs))
      ensures obj == 0 ==> Live() == old(Live()) && old(c.partial) == [] && old(c.free) == []
      ensures obj == 0 && 0 !in old(mem.Free()) ==> NoRun(old(mem.Bits()), mem.total, c.pages)
      ensures obj != 0 ==> obj !in old(Live()) && Live() == old(Live()) + {obj}
    {
      hide Valid, Live;
      var s := Choose(c);
      if s == null {
        return 0;
      }
      obj := TakeSlot(c, s);
    }

    method ReturnSlot(c: Cache, s: Slab, i: nat)
      requires Valid() && c in caches && s in c.slabs && i < c.count && s.inuse > 0
      modifies c`full, c`partial, c`free, c`active, s
      ensures Valid() <==> i in old(s.used)
      ensures i in old(s.used) ==> Live() == old(Live()) - {s.Obj(i)}
    {
      hide Pmm.PhysMem.Valid, Pmm.PhysMem.Free, Held, Slab.Valid, Slab.Obj, Cache.Valid, Apart, LiveIn;
      ghost var others := slabs - c.slabs;
      assert slabs == others + c.slabs;
      LiveUnion(others, c.slabs);
      OfCache(c, s);
      Elsewhere(s, i, others);
      forall d | d in caches && d != c ensures s !in d.slabs { Separate(c, d); }
      c.Return(s, i);
      LiveUnion(others, c.slabs);
    }

    lemma OfCache(c: Cache, s: Slab)
      requires Whole() && c in caches && s in c.slabs
      ensures s.cache == c
    {
      hide Slab.Valid, Apart, Counts, Listed, Cache.Sized, LiveIn;
      assert c.Valid() && c.Placed(s);
    }

    lemma InRange(s: Slab, i: nat)
      requires Valid() && s in slabs && i in s.used
      ensures i < s.cache.count
    {
      hide Pmm.PhysMem.Valid, Pmm.PhysMem.Free, Held, Apart, Listed, LiveIn, Counts;
      assert s.cache.Placed(s);
    }

    /** `find_owner_cache_for_obj`. */
    method FindOwner(obj: nat) returns (c: Cache?, s: Slab?)
      requires Valid()
      ensures c == null <==> s == null
      ensures c != null ==> c in caches && s in c.slabs && Contains(s, obj)
      ensures c == null ==> forall t :: t in slabs ==> !Contains(t, obj)
    {
      hide Pmm.PhysMem.Valid, Pmm.PhysMem.Free, Held, Cache.Valid, Apart, Contains;
      for k := 0 to |caches|
        invariant forall j, t :: 0 <= j < k && t in caches[j].slabs ==> !Contains(t, obj)
      {
        c := caches[k];
        s := c.Find(obj);
        if s != null {
          return;
        }
      }
      c, s := null, null;
    }

    /** An address in use is the address of a used index of the slab that contains it. */
    lemma LiveMeans(obj: nat)
      requires Valid()
      ensures obj in Live() <==> exists s :: s in slabs && Contains(s, obj) && IndexOf(s, obj) in s.used
    {
      hide Pmm.PhysMem.Valid, Pmm.PhysMem.Free, Held, Apart, Listed, Counts, Contains, IndexOf, Slab.Obj;
      if obj in Live() {
        var s, i :| s in slabs && i in s.used && s.Obj(i) == obj;
        InRange(s, i);
        assert s.cache.Valid();
        ObjContained(s, i);
      }
      if s :| s in slabs && Contains(s, obj) && IndexOf(s, obj) in s.used {
        ContainsObj(s, obj);
      }
    }

    /** Slabs lie apart, so an address is inside at most one of them. */
    lemma OneContains(s: Slab, t: Slab, obj: nat)
      requires Valid() && s in slabs && t in slabs && Contains(s, obj) && Contains(t, obj)
      ensures s == t
    {
      hide Pmm.PhysMem.Valid, Pmm.PhysMem.Free, Held, Listed, Counts, Contains, IndexOf, Slab.Obj;
      ContainsObj(s, obj);
      ContainsObj(t, obj);
      assert s.cache.Valid() && t.cache.Valid();
      if s != t { NoOverlap(s, IndexOf(s, obj), t, IndexOf(t, obj)); }
    }

    /** The object is in use, or the code can tell that it is not. */
    ghost predicate Freeable(obj: nat)
      reads this, slabs
    {
      forall s :: s in slabs && Contains(s, obj) && s.inuse > 0 ==> IndexOf(s, obj) in s.used
    }

    /**
     * `kmem_cache_free`, whichever cache the caller names: the object is no longer in use. A second free of
     * an object whose slab still has others in use goes unnoticed, and spoils the slab.
     */
    method Free(c: Cache, obj: nat)
      requires Valid() && c in caches
      modifies caches, slabs
      ensures slabs == old(slabs) && caches == old(caches)
      ensures Valid() <==> old(Freeable(obj))
      ensures old(Freeable(obj)) ==> Live() == old(Live()) - {obj}
    {
      hide Pmm.PhysMem.Valid, Pmm.PhysMem.Free, Held, Apart, Cache.Valid, Contains, IndexOf, Slab.Obj, LiveIn, Slab.Valid;
      LiveMeans(obj);
      var target: Cache? := c;
      var s := c.Find(obj);
      if s == null {
        target, s := FindOwner(obj);
        if s == null {
          return;
        }
      }
      forall t | t in slabs && Contains(t, obj) ensures t == s { OneContains(s, t, obj); }
      if s.inuse == 0 {
        Idle(s);
        return;
      }
      ContainsObj(s, obj);
      OfCache(target, s);
      ReturnSlot(target, s, IndexOf(s, obj));
    }

    lemma Idle(s: Slab)
      requires Valid() && s in slabs && s.inuse == 0
      ensures s.used == {}
    {
      hide Pmm.PhysMem.Valid, Pmm.PhysMem.Free, Held, Apart, Listed, LiveIn, Counts;
      assert s.cache.Placed(s);
    }

    /** One round of `kmem_cache_shrink`: an empty slab's pages go back to the page allocator. */
    method DestroyFirst(c: Cache)
      requires Valid() && c in caches && c.free != []
      modifies `slabs, mem, mem.bitmap, c`free, c`slabs
      ensures Valid() && Live() == old(Live()) && slabs == old(slabs) - {old(c.free)[0]} && c.free == old(c.free)[1..]
      ensures mem.Free() == old(mem.Free()) + Pmm.PagesBelow(mem.total, old(c.free)[0].page, old(c.free)[0].page + c.pages)
    {
      hide Pmm.PhysMem.Valid, Pmm.PhysMem.Free, Held, Slab.Valid, Cache.Valid, LiveIn, Disjoint, Pmm.PagesBelow;
      Owner(c);
      LiveSplit(slabs, c.free[0]);
      assert Objs(c.free[0], {}) == {};
      forall d | d in caches && d != c ensures c.free[0] !in d.slabs { Separate(c, d); }
      var s := c.DropFree();
      slabs := slabs - {s};
      mem.FreePages(s.page * PAGE_SIZE, c.pages);
      HeldFree(old(slabs), old(mem.Free()), mem.total, s);
    }

    lemma Owner(c: Cache)
      requires Valid() && c in caches && c.free != []
      ensures c.free[0] in c.slabs && c.free[0].used == {} && c.free[0].cache == c
    {
      hide Pmm.PhysMem.Valid, Pmm.PhysMem.Free, Held, Apart, LiveIn, Counts;
      assert c.Valid() && c.free[0] in Elems(c.free);
      assert c.Placed(c.free[0]);
    }

    /** `kmem_cache_shrink`: exactly the free list is given back; no object in use is touched. */
    method Shrink(c: Cache) returns (freed: nat)
      requires Valid() && c in caches
      modifies `slabs, mem, mem.bitmap, c`free, c`slabs
      ensures Valid() && Live() == old(Live())
      ensures c.free == [] && freed == |old(c.free)| && slabs == old(slabs) - Elems(old(c.free))
    {
      hide Valid, Live, Elems, Pmm.PhysMem.Free, Pmm.PagesBelow;
      freed := 0;
      FirstElems(c.free, 0);
      while c.free != []
        invariant Valid() && Live() == old(Live()) && freed <= |old(c.free)|
        invariant c.free == old(c.free)[freed..] && slabs == old(slabs) - Elems(old(c.free)[..freed])
        decreases |c.free|
      {
        DestroyFirst(c);
        FirstElems(old(c.free), freed);
        freed := freed + 1;
      }
      assert old(c.free)[..freed] == old(c.free);
    }

    /**
     * `kmem_cache_create`; null when there is no memory for the cache itself or not even one object fits.
     * A cache for objects of size zero is created too, and is the one that is not valid.
     */
    method CreateCache(size: nat, align: nat, hardware: bool, memory: bool) returns (c: Cache?)
      requires Valid()
      modifies `caches
      ensures Live() == old(Live()) && (Valid() <==> c == null || size > 0)
      ensures c == null <==> !memory || PerSlab(AlignUp(size, Alignment(align, hardware))) == 0
      ensures c == null ==> caches == old(caches)
      ensures c != null ==> fresh(c) && caches == [c] + old(caches) && c.objectSize == size && c.Live() == {}
    {
      hide Pmm.PhysMem.Valid, Pmm.PhysMem.Free, Held, Apart, Cache.Valid, PerSlab;
      var a := Alignment(align, hardware);
      if !memory || PerSlab(AlignUp(size, a)) == 0 {
        return null;
      }
      c := new Cache(size, a);
      caches := [c] + caches;
      assert c in caches;
    }
  }
}
