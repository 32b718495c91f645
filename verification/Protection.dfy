/** Pages and areas agree on what may be written. */
module Protection {
  import opened Common
  import opened Areas
  import opened Vmm
  import opened Fork

  /** The page lies in an area, and may be written exactly if the area allows it. */
  ghost predicate Protects(flags: bv32, b: Option<Backing>)
  {
    b.Some? && (flags & 2 != 0 <==> b.value.prot & 2 != 0)
  }

  /** No area is empty, and every page is as its area says. */
  ghost predicate Guarded(pt: map<nat, Pte>, s: seq<Area>)
  {
    Solid(s) && forall a :: a in pt ==> Protects(pt[a].flags, Lookup(s, a))
  }

  /** Pages that stay as they were, where the map stays as it was. */
  lemma GuardedPart(pt: map<nat, Pte>, s: seq<Area>, pt': map<nat, Pte>, t: seq<Area>)
    requires Guarded(pt, s) && Solid(t)
    requires forall a :: a in pt' ==> a in pt && pt'[a] == pt[a] && Lookup(t, a) == Lookup(s, a)
    ensures Guarded(pt', t)
  {
    hide Solid, Lookup;
  }

  lemma GuardedMapped(pt: map<nat, Pte>, s: seq<Area>, a: nat)
    requires Guarded(pt, s) && a in pt
    ensures Mapped(s, a)
  {
    LookupSome(s, a);
  }

  /** Unmapping keeps the agreement, whether or not the areas could be cut. */
  lemma UnmapGuarded(pt: map<nat, Pte>, s: seq<Area>, lo: nat, hi: nat, split: bool)
    requires Guarded(pt, s) && Sorted(s) && lo <= hi && lo % PAGE_SIZE == 0 && hi % PAGE_SIZE == 0
    ensures Guarded(Cleared(pt, s, lo, hi), AfterUnmap(s, lo, hi, split))
  {
    hide Lookup, Solid, Mapped, Protects;
    AfterUnmapSolid(s, lo, hi, split);
    var pt', t := Cleared(pt, s, lo, hi), AfterUnmap(s, lo, hi, split);
    forall a | a in pt'
      ensures Lookup(t, a) == Lookup(s, a)
    {
      GuardedMapped(pt, s, a);
      if Removable(s, lo, hi, split) { UnmapLookup(s, lo, hi, a); }
    }
    GuardedPart(pt, s, pt', t);
  }

  /** A mapping keeps the agreement: its own pages are new, and no other page lies in its range. */
  lemma MapGuarded(pt: map<nat, Pte>, s: seq<Area>, pt': map<nat, Pte>, t: seq<Area>, v: Area)
    requires Guarded(pt, s) && Solid(t) && Overrides(t, s, v)
    requires forall a :: a in pt' && In(a, v.start, v.end) ==> Allows(pt'[a].flags, v.prot)
    requires forall a :: a in pt' && !In(a, v.start, v.end) ==> a in pt && pt'[a] == pt[a]
    ensures Guarded(pt', t)
  {
    hide Lookup, Solid;
    forall a | a in pt'
      ensures Protects(pt'[a].flags, Lookup(t, a))
    {
      assert Lookup(t, a) == if Covers(v, a) then Some(BackingAt(v, a)) else Lookup(s, a);
    }
  }

  /** What is left in the range of a request before it is filled: nothing. */
  lemma UnderneathGuarded(pt: map<nat, Pte>, s: seq<Area>, fixed: bool, lo: nat, hi: nat)
    requires Guarded(pt, s) && (!fixed ==> !Intersects(s, lo, hi))
    ensures forall a :: a in UnderneathPages(pt, s, fixed, lo, hi) ==> a in pt && !In(a, lo, hi)
  {
    forall a | a in UnderneathPages(pt, s, fixed, lo, hi)
      ensures a in pt && !In(a, lo, hi)
    {
      GuardedMapped(pt, s, a);
      CoveredMeets(s, a, lo, hi);
    }
  }

  lemma CoveredMeets(s: seq<Area>, a: nat, lo: nat, hi: nat)
    requires Mapped(s, a)
    ensures In(a, lo, hi) ==> Intersects(s, lo, hi)
  {
    var i :| 0 <= i < |s| && Covers(s[i], a);
    if In(a, lo, hi) { assert Meets(s[i], lo, hi); }
  }

  /** A failed request keeps the agreement. */
  lemma FailedGuarded(pt: map<nat, Pte>, s: seq<Area>, t: seq<Area>, fixed: bool, tried: bool, lo: nat, hi: nat, split: bool)
    requires Guarded(pt, s) && Solid(t) && GivenUp(t, s, fixed, lo, hi, split) && (!fixed ==> !Intersects(s, lo, hi))
    ensures Guarded(Leaves(pt, s, fixed, tried, lo, hi), t)
  {
    UnderneathGuarded(pt, s, fixed, lo, hi);
    hide Lookup, Solid, Mapped, Protects, Intersects;
    var pt' := Leaves(pt, s, fixed, tried, lo, hi);
    forall a | a in pt'
      ensures a in pt && pt'[a] == pt[a] && Lookup(t, a) == Lookup(s, a)
    {
      assert !In(a, lo, hi);
    }
    GuardedPart(pt, s, pt', t);
  }

  /** A page that has come in is as its area says. */
  lemma FaultGuarded(pt: map<nat, Pte>, s: seq<Area>, pt': map<nat, Pte>, page: map<nat, Bytes>, before: map<nat, Bytes>, addr: nat)
    requires Guarded(pt, s) && Sorted(s) && Lookup(s, addr).Some?
    requires PagedIn(pt', page, pt, before, PageDown(addr), Lookup(s, addr).value.prot)
    ensures Guarded(pt', s)
  {
    SamePage(s, addr);
    hide Lookup, Solid, Sorted;
  }

  /** Areas consist of whole pages. */
  lemma SamePage(s: seq<Area>, addr: nat)
    requires Sorted(s) && Lookup(s, addr).Some?
    ensures Lookup(s, PageDown(addr)).Some? && Lookup(s, PageDown(addr)).value.prot == Lookup(s, addr).value.prot
  {
    LookupSome(s, addr);
    var i :| 0 <= i < |s| && Covers(s[i], addr);
    WholePage(s[i].start, addr);
    LookupCovered(s, i, addr);
    LookupCovered(s, i, PageDown(addr));
  }

  lemma WholePage(start: nat, addr: nat)
    requires start % PAGE_SIZE == 0 && start <= addr
    ensures start <= PageDown(addr) <= addr
  {}

  /** A child agrees with its areas as its parent did. */
  lemma CloneGuarded(parent: map<nat, Pte>, s: seq<Area>, child: map<nat, Pte>, page: map<nat, Bytes>, tables: nat -> bool)
    requires Guarded(parent, s) && AllCopied(child, parent, page, s, tables)
    ensures Guarded(child, s)
  {
    hide Lookup, Solid, Mapped;
    forall a | a in child
      ensures Protects(child[a].flags, Lookup(s, a))
    {
      assert Copied(child, parent, page, a);
      UnmarkedWritable(child[a].flags, parent[a].flags);
    }
  }

  /** What `vmm_munmap` promises is enough to keep the agreement. */
  lemma MunmapGuarded(pt: map<nat, Pte>, s: seq<Area>, pt': map<nat, Pte>, t: seq<Area>, addr: nat, length: nat, split: bool, err: int)
    requires Guarded(pt, s) && Sorted(s) && addr < U64 && length < U64 && (err == 0 ==> addr + length < U64)
    requires err != 0 ==> t == s && pt' == pt
    requires err == 0 ==> t == AfterUnmap(s, PageDown(addr), PageEnd(addr + length), split)
    requires err == 0 ==> pt' == if PageEnd(addr + length) < U64 then Cleared(pt, s, PageDown(addr), PageEnd(addr + length)) else pt
    ensures Guarded(pt', t)
  {
    hide Cleared, Guarded, PageDown, PageEnd;
    if err == 0 {
      PageUpWraps(addr);
      PageUpWraps(addr + length);
      if PageEnd(addr + length) < U64 { UnmapGuarded(pt, s, PageDown(addr), PageEnd(addr + length), split); }
    }
  }

  /** What `vmm_mmap` promises is enough to keep the agreement, unless the length wraps to zero. */
  lemma MmapGuarded(pt: map<nat, Pte>, s: seq<Area>, pt': map<nat, Pte>, t: seq<Area>, page: map<nat, Bytes>, r: Option<nat>, addr: nat,
                    length: nat, prot: bv32, flags: bv32, file: nat, offset: int, split: bool, tried: bool, read: int -> Option<Bytes>)
    requires Guarded(pt, s) && Solid(t) && Injective(pt')
    requires !Placeable(s, addr, length, flags, file, offset) ==> r.None? && pt' == pt && t == s
    requires Placeable(s, addr, length, flags, file, offset) ==>
      var at, hi, fixed := Place(s, addr, length, flags), Place(s, addr, length, flags) + PageUp(length), flags & MAP_FIXED != 0;
      SameOutside(pt', pt, at, hi) && (r.None? ==> GivenUp(t, s, fixed, at, hi, split)) &&
      (r.None? || flags & MAP_ANONYMOUS != 0 ==> pt' == Leaves(pt, s, fixed, tried, at, hi) && (r.Some? ==> !tried))
    requires r.Some? ==> r.value == Place(s, addr, length, flags) && Overrides(t, s, Requested(r.value, length, prot, flags, file, offset))
    requires r.Some? && flags & MAP_ANONYMOUS == 0 ==> Loaded(pt', page, r.value, r.value + PageUp(length), prot, offset - r.value, read)
    ensures Guarded(pt', t)
  {
    hide Guarded, Solid, Lookup, PageUp, Placeable, Place, Lowest, Overrides, Leaves, GivenUp, Intersects, AreaFlags, Allows, Shows;
    if Placeable(s, addr, length, flags, file, offset) {
      var at, hi, fixed := Place(s, addr, length, flags), Place(s, addr, length, flags) + PageUp(length), flags & MAP_FIXED != 0;
      PlaceIsFree(s, addr, length, flags, file, offset);
      UnderneathGuarded(pt, s, fixed, at, hi);
      if r.None? {
        FailedGuarded(pt, s, t, fixed, tried, at, hi, split);
      } else {
        LeavesUntried(pt, s, fixed, at, hi);
        MapGuarded(pt, s, pt', t, Requested(at, length, prot, flags, file, offset));
      }
    }
  }

  lemma LeavesUntried(pt: map<nat, Pte>, s: seq<Area>, fixed: bool, lo: nat, hi: nat)
    ensures Leaves(pt, s, fixed, false, lo, hi) == UnderneathPages(pt, s, fixed, lo, hi)
  {}

  lemma PlaceIsFree(s: seq<Area>, addr: nat, length: nat, flags: bv32, file: nat, offset: int)
    requires Placeable(s, addr, length, flags, file, offset)
    ensures flags & MAP_FIXED == 0 ==> var at := Place(s, addr, length, flags); !Intersects(s, at, at + PageUp(length))
  {
    PlaceMeans(s, addr, length, flags, file, offset);
  }
}
