/** `vmm_clone_address_space`: the eager copy of an address space for fork. */
module Fork {
  import opened Common
  import opened Areas
  import opened VmaList
  import opened Vmm
  import Pmm

  /** The flags of a page without the mark for copy-on-write. */
  function Plain(flags: bv32): bv32 { flags & !PTE_COW }

  /** The flags are those of the parent without the mark for copy-on-write, and no other difference. */
  ghost predicate Unmarked(flags: bv32, parent: bv32)
  {
    flags & 0x200 == 0 && flags | 0x200 == parent | 0x200
  }

  lemma PlainUnmarked(flags: bv32)
    ensures Unmarked(Plain(flags), flags)
  {}

  /** Whether a page may be written is not what the mark says. */
  lemma UnmarkedWritable(flags: bv32, parent: bv32)
    requires Unmarked(flags, parent)
    ensures flags & 2 == parent & 2
  {}

  /** The page `a` of the child is a copy of the parent's page in a frame of its own. */
  ghost predicate Copied(child: map<nat, Pte>, parent: map<nat, Pte>, page: map<nat, Bytes>, a: nat)
  {
    a in child && a in parent && Unmarked(child[a].flags, parent[a].flags) &&
    parent[a].frame in page && child[a].frame in page && page[child[a].frame] == page[parent[a].frame]
  }

  /**
   * The child has copies of the parent's pages `a < upTo` that lie in an area
   * and whose page tables could be built, and no other pages.
   */
  ghost predicate CopiedSoFar(child: map<nat, Pte>, parent: map<nat, Pte>, page: map<nat, Bytes>,
                              s: seq<Area>, upTo: nat, tables: nat -> bool)
  {
    (forall a :: a in parent && Mapped(s, a) && a < upTo && tables(a) ==> Copied(child, parent, page, a)) &&
    forall a :: a in child ==> a in parent && Mapped(s, a) && a < upTo && tables(a)
  }

  /** Both page tables own their frames, and they share none. */
  ghost predicate Isolated(parent: map<nat, Pte>, child: map<nat, Pte>, free: set<nat>, total: nat)
    ensures Isolated(parent, child, free, total) ==> Exclusive(parent, free, total) && Exclusive(child, free, total)
  {
    Exclusive(parent, free, total) && Exclusive(child, free, total) && Frames(parent) !! Frames(child)
  }

  /** `pmm_alloc_pages(1)` while frame 0 is in use. */
  method AllocFrame(mem: Pmm.PhysMem) returns (frame: Option<nat>)
    requires mem.Valid() && 0 !in mem.Free()
    modifies mem, mem.bitmap
    ensures mem.Valid()
    ensures frame.Some? ==> frame.value in old(mem.Free()) && frame.value != 0 && mem.Free() == old(mem.Free()) - {frame.value}
    ensures frame.None? ==> mem.Free() == old(mem.Free()) == {}
  {
    var phys;
    ghost var z;
    forall y: Pmm.ZoneType { mem.ZoneFree(y); }
    phys, z := mem.AllocPages(1);
    if phys == 0 { return None; }
    assert Pmm.Pages(phys / PAGE_SIZE, phys / PAGE_SIZE + 1) == {phys / PAGE_SIZE};
    assert !old(mem.Bits())[phys / PAGE_SIZE];
    frame := Some(phys / PAGE_SIZE);
  }

  /** Giving the child a frame of its own. */
  lemma IsolatedAdd(parent: map<nat, Pte>, child: map<nat, Pte>, free: set<nat>, total: nat, a: nat, e: Pte)
    requires Isolated(parent, child, free, total) && a !in child && a % PAGE_SIZE == 0
    requires e.frame in free && e.frame < total && e.frame != 0
    ensures Isolated(parent, child[a := e], free - {e.frame}, total)
    ensures free - {e.frame} + Frames(child[a := e]) == free + Frames(child)
  {
    FramesAdd(child, a, e);
  }

  lemma ParentFrameUsed(parent: map<nat, Pte>, child: map<nat, Pte>, free: set<nat>, total: nat, a: nat)
    requires Isolated(parent, child, free, total) && a in parent
    ensures parent[a].frame !in free
  {
    assert parent[a].frame in Frames(parent);
  }

  /** A frame that is taken and not mapped is lost. */
  lemma LostFrame(parent: map<nat, Pte>, child: map<nat, Pte>, free: set<nat>, total: nat, f: nat)
    requires Isolated(parent, child, free, total) && f in free
    ensures free - {f} + Frames(child) != free + Frames(child)
  {
    assert f !in Frames(child);
  }

  lemma IsolatedShrink(parent: map<nat, Pte>, child: map<nat, Pte>, free: set<nat>, free': set<nat>, total: nat)
    requires Isolated(parent, child, free, total) && free' <= free
    ensures Isolated(parent, child, free', total) && 0 !in free
  {}

  /** Copies one page of the parent; a failed `mmu_map` goes unnoticed and loses the frame. */
  method CopyPage(a: nat, parent: AddressSpace, child: AddressSpace, table: bool, mem: Pmm.PhysMem, ram: Ram) returns (ok: bool)
    requires parent != child && mem.Valid() && Isolated(parent.pt, child.pt, mem.Free(), mem.total)
    requires a in parent.pt && a !in child.pt && a % PAGE_SIZE == 0 && Resident(parent.pt, ram.page)
    modifies child`pt, mem, mem.bitmap, ram
    ensures mem.Valid() && Isolated(parent.pt, child.pt, mem.Free(), mem.total)
    ensures mem.Free() + Frames(child.pt) <= old(mem.Free() + Frames(child.pt)) && mem.Free() <= old(mem.Free())
    ensures ok ==> (mem.Free() + Frames(child.pt) == old(mem.Free() + Frames(child.pt)) <==> table)
    ensures !ok ==> mem.Free() == {}
    ensures Kept(ram.page, old(ram.page), old(mem.Free()))
    ensures ok && table ==> a in child.pt && child.pt == old(child.pt)[a := child.pt[a]] && child.pt[a].frame in old(mem.Free())
    ensures ok && table ==> Copied(child.pt, parent.pt, ram.page, a)
    ensures !ok || !table ==> child.pt == old(child.pt)
  {
    hide Pmm.PhysMem.Valid, Frames, Isolated, Exclusive, Plain, Unmarked;
    IsolatedShrink(parent.pt, child.pt, mem.Free(), mem.Free(), mem.total);
    var frame := AllocFrame(mem);
    if frame.None? { return false; }
    var e := Pte(frame.value, Plain(parent.pt[a].flags));
    IsolatedAdd(parent.pt, child.pt, old(mem.Free()), mem.total, a, e);
    IsolatedShrink(parent.pt, child.pt, old(mem.Free()), mem.Free(), mem.total);
    ParentFrameUsed(parent.pt, child.pt, old(mem.Free()), mem.total, a);
    LostFrame(parent.pt, child.pt, old(mem.Free()), mem.total, e.frame);
    PlainUnmarked(parent.pt[a].flags);
    ram.page := ram.page[e.frame := ram.page[parent.pt[a].frame]];
    if table {
      child.pt := child.pt[a := e];
    }
    ok := true;
  }

  /** Copies made so far survive what happens to other frames. */
  lemma CopiedKept(child: map<nat, Pte>, parent: map<nat, Pte>, page: map<nat, Bytes>, page': map<nat, Bytes>,
                   free: set<nat>, total: nat, s: seq<Area>, upTo: nat, tables: nat -> bool)
    requires Isolated(parent, child, free, total) && Kept(page', page, free) && Resident(parent, page)
    requires CopiedSoFar(child, parent, page, s, upTo, tables)
    ensures CopiedSoFar(child, parent, page', s, upTo, tables) && Resident(parent, page')
  {
    assert forall a :: a in parent ==> parent[a].frame in Frames(parent);
    assert forall a :: a in child ==> child[a].frame in Frames(child);
  }

  /** One more page: copied, or not there to be copied. */
  lemma CopiedStep(child: map<nat, Pte>, parent: map<nat, Pte>, page: map<nat, Bytes>, s: seq<Area>, a: nat,
                   tables: nat -> bool, child': map<nat, Pte>)
    requires CopiedSoFar(child, parent, page, s, a, tables) && Injective(parent) && a % PAGE_SIZE == 0 && Mapped(s, a)
    requires if a in parent && tables(a) then a in child' && child' == child[a := child'[a]] && Copied(child', parent, page, a)
             else child' == child
    ensures CopiedSoFar(child', parent, page, s, a + PAGE_SIZE, tables)
  {
    hide Mapped, Unmarked;
    forall b | b in parent && b < a + PAGE_SIZE
      ensures b <= a
    {
      NextAligned(a, b);
    }
    forall b | b in parent && Mapped(s, b) && b < a + PAGE_SIZE && tables(b)
      ensures Copied(child', parent, page, b)
    {
      assert b == a || Copied(child, parent, page, b);
    }
  }

  /** No mapped address lies between two areas. */
  lemma CopiedGap(child: map<nat, Pte>, parent: map<nat, Pte>, page: map<nat, Bytes>, s: seq<Area>, i: nat, tables: nat -> bool)
    requires Sorted(s) && i <= |s|
    requires CopiedSoFar(child, parent, page, s, if i == 0 then 0 else s[i - 1].end, tables)
    ensures i < |s| ==> CopiedSoFar(child, parent, page, s, s[i].start, tables)
    ensures i == |s| ==> forall upTo: nat :: (i > 0 ==> upTo >= s[i - 1].end) ==> CopiedSoFar(child, parent, page, s, upTo, tables)
  {
    var lo := if i == 0 then 0 else s[i - 1].end;
    forall a: nat | Mapped(s, a) && lo <= a
      ensures i < |s| && s[i].start <= a
    {
      var j :| 0 <= j < |s| && Covers(s[j], a);
      assert j >= i;
    }
  }

  /** Copies the pages of one area. */
  method CopyArea(lo: nat, hi: nat, ghost s: seq<Area>, parent: AddressSpace, child: AddressSpace, tables: nat -> bool,
                  mem: Pmm.PhysMem, ram: Ram, ghost all: set<nat>) returns (ok: bool)
    requires parent != child && mem.Valid() && Isolated(parent.pt, child.pt, mem.Free(), mem.total)
    requires Resident(parent.pt, ram.page) && CopiedSoFar(child.pt, parent.pt, ram.page, s, lo, tables)
    requires lo % PAGE_SIZE == 0 && hi % PAGE_SIZE == 0 && lo <= hi && forall a: nat :: lo <= a < hi ==> Mapped(s, a)
    modifies child`pt, mem, mem.bitmap, ram
    ensures mem.Valid() && Isolated(parent.pt, child.pt, mem.Free(), mem.total) && Resident(parent.pt, ram.page)
    ensures mem.Free() + Frames(child.pt) <= old(mem.Free() + Frames(child.pt)) && mem.Free() <= old(mem.Free())
    ensures Kept(ram.page, old(ram.page), old(mem.Free()))
    ensures ok ==> CopiedSoFar(child.pt, parent.pt, ram.page, s, hi, tables)
    ensures !ok ==> mem.Free() == {}
    requires mem.Free() + Frames(child.pt) <= all && (mem.Free() + Frames(child.pt) == all <==> Tabled(parent.pt, s, lo, tables))
    ensures ok ==> (mem.Free() + Frames(child.pt) == all <==> Tabled(parent.pt, s, hi, tables))
  {
    hide Pmm.PhysMem.Valid, Pmm.PhysMem.Free, Frames, Exclusive, Kept, CopiedSoFar, Mapped, Resident, Tabled;
    KeptStart(ram.page, mem.Free());
    var a := lo;
    while a < hi
      invariant lo <= a <= hi && a % PAGE_SIZE == 0
      invariant mem.Valid() && Isolated(parent.pt, child.pt, mem.Free(), mem.total) && Resident(parent.pt, ram.page)
      invariant mem.Free() + Frames(child.pt) <= old(mem.Free() + Frames(child.pt)) && mem.Free() <= old(mem.Free())
      invariant Kept(ram.page, old(ram.page), old(mem.Free()))
      invariant CopiedSoFar(child.pt, parent.pt, ram.page, s, a, tables)
      invariant mem.Free() + Frames(child.pt) == all <==> Tabled(parent.pt, s, a, tables)
    {
      TabledStep(parent.pt, s, a, tables, mem.Free(), mem.total);
      ok := CopyOne(a, s, parent, child, tables, mem, ram, old(ram.page), old(mem.Free()));
      if !ok { return; }
      a := a + PAGE_SIZE;
    }
    ok := true;
  }

  method CopyOne(a: nat, ghost s: seq<Area>, parent: AddressSpace, child: AddressSpace, tables: nat -> bool,
                 mem: Pmm.PhysMem, ram: Ram, ghost before: map<nat, Bytes>, ghost free: set<nat>) returns (ok: bool)
    requires parent != child && mem.Valid() && Isolated(parent.pt, child.pt, mem.Free(), mem.total)
    requires Resident(parent.pt, ram.page) && CopiedSoFar(child.pt, parent.pt, ram.page, s, a, tables)
    requires a % PAGE_SIZE == 0 && Mapped(s, a) && Kept(ram.page, before, free) && mem.Free() <= free
    modifies child`pt, mem, mem.bitmap, ram
    ensures mem.Valid() && Isolated(parent.pt, child.pt, mem.Free(), mem.total) && Resident(parent.pt, ram.page)
    ensures mem.Free() + Frames(child.pt) <= old(mem.Free() + Frames(child.pt)) && mem.Free() <= free
    ensures Kept(ram.page, before, free)
    ensures ok ==> CopiedSoFar(child.pt, parent.pt, ram.page, s, a + PAGE_SIZE, tables)
    ensures !ok ==> mem.Free() == {}
    ensures ok ==> (mem.Free() + Frames(child.pt) == old(mem.Free() + Frames(child.pt)) <==> (a in parent.pt ==> tables(a)))
  {
    hide Pmm.PhysMem.Valid, Pmm.PhysMem.Free, Frames, Kept, Mapped, Resident, Copied;
    ghost var c, page, was := child.pt, ram.page, mem.Free();
    ok := true;
    if a in parent.pt {
      ok := CopyPage(a, parent, child, tables(a), mem, ram);
      CopiedKept(c, parent.pt, page, ram.page, was, mem.total, s, a, tables);
      KeptStep(ram.page, page, before, was, free);
    }
    if ok {
      CopiedStep(c, parent.pt, ram.page, s, a, tables, child.pt);
    }
  }

  /** The area at position `k` can be put into a list of areas before it: it is empty, or it starts after them all. */
  ghost predicate Joins(s: seq<Area>, k: nat)
  {
    k < |s| && (s[k].start == s[k].end || forall j :: 0 <= j < k ==> s[j].start < s[k].start)
  }

  ghost predicate Joined(s: seq<Area>, i: nat, v: Area)
  {
    exists k :: 0 <= k < i && Joins(s, k) && s[k] == v
  }

  /** The child's list so far: an insertion that fails goes unnoticed, so it has the areas that can join. */
  ghost predicate Cloned(t: seq<Area>, s: seq<Area>, i: nat)
  {
    i <= |s| && (forall v :: v in t <==> Joined(s, i, v)) && (Solid(s) ==> t == s[..i])
  }

  /** Every area but an empty one starts after all areas before it. */
  ghost predicate Ordered(s: seq<Area>)
  {
    forall i, j :: 0 <= i < j < |s| ==> s[i].start < s[j].start || s[j].start == s[j].end
  }

  /** The address lies in an area that starts where an empty one before it does. */
  ghost predicate Dropped(s: seq<Area>, a: nat)
  {
    exists k :: 0 <= k < |s| && Covers(s[k], a) && !Joins(s, k)
  }

  /** The map of `t` is the map of `s` without those addresses. */
  ghost predicate Inherits(t: seq<Area>, s: seq<Area>)
  {
    forall a: nat :: Lookup(t, a) == if Dropped(s, a) then None else Lookup(s, a)
  }

  ghost function EndOf(s: seq<Area>, i: nat): nat
    requires i <= |s|
  {
    if i == 0 then 0 else s[i - 1].end
  }

  /** Copies an area into the child's list; the result of the insertion is not looked at. */
  method CloneVma(area: Area, child: AddressSpace, ghost s: seq<Area>, ghost i: nat)
    requires child.Valid() && Sorted(s) && i < |s| && s[i] == area && Cloned(child.list.contents, s, i)
    modifies child.list, child.list.repr
    ensures child.Valid() && fresh(child.list.repr - old(child.list.repr)) && Cloned(child.list.contents, s, i + 1)
  {
    hide NextLinks, PrevLinks, Distinct, Describes, Slot, Room, Blocked, Cloned;
    ghost var t := child.list.contents;
    var copy := new VmArea(area);
    var inserted;
    ghost var k;
    inserted, k := child.list.Insert(copy);
    CloneStep(t, s, i, k, child.list.contents);
  }

  /** Copies one area and its pages. */
  method CloneArea(area: Area, parent: AddressSpace, child: AddressSpace, ghost s: seq<Area>, ghost i: nat,
                   memory: bool, tables: nat -> bool, mem: Pmm.PhysMem, ram: Ram, ghost all: set<nat>) returns (ok: bool)
    requires parent != child && child.Valid() && Sorted(s) && i < |s| && s[i] == area && Cloned(child.list.contents, s, i)
    requires mem.Valid() && Isolated(parent.pt, child.pt, mem.Free(), mem.total) && Resident(parent.pt, ram.page)
    requires CopiedSoFar(child.pt, parent.pt, ram.page, s, EndOf(s, i), tables) && mem.Free() + Frames(child.pt) <= all
    requires mem.Free() + Frames(child.pt) == all <==> Tabled(parent.pt, s, EndOf(s, i), tables)
    modifies child`pt, child.list, child.list.repr, mem, mem.bitmap, ram
    ensures child.Valid() && fresh(child.list.repr - old(child.list.repr))
    ensures mem.Valid() && Isolated(parent.pt, child.pt, mem.Free(), mem.total) && Resident(parent.pt, ram.page)
    ensures mem.Free() + Frames(child.pt) <= old(mem.Free() + Frames(child.pt)) && mem.Free() <= old(mem.Free())
    ensures Kept(ram.page, old(ram.page), old(mem.Free()))
    ensures ok ==> CopiedSoFar(child.pt, parent.pt, ram.page, s, EndOf(s, i + 1), tables) && Cloned(child.list.contents, s, i + 1)
    ensures !ok ==> !memory || mem.Free() == {}
    ensures ok ==> (mem.Free() + Frames(child.pt) == all <==> Tabled(parent.pt, s, EndOf(s, i + 1), tables))
  {
    hide Pmm.PhysMem.Valid, Pmm.PhysMem.Free, Frames, Exclusive, Kept, CopiedSoFar, Resident, NextLinks, PrevLinks, Distinct,
         Describes, Cloned, Solid, Isolated, Mapped, Tabled;
    KeptStart(ram.page, mem.Free());
    if !memory { return false; }
    CloneVma(area, child, s, i);
    CopiedGap(child.pt, parent.pt, ram.page, s, i, tables);
    TabledGap(parent.pt, s, i, tables);
    MappedInside(s, i);
    ok := CopyArea(area.start, area.end, s, parent, child, tables, mem, ram, all);
  }

  /** The parent's pages below `upTo` that lie in an area have page tables in the child. */
  ghost predicate Tabled(parent: map<nat, Pte>, s: seq<Area>, upTo: nat, tables: nat -> bool)
  {
    forall a :: a in parent && Mapped(s, a) && a < upTo ==> tables(a)
  }

  lemma TabledStep(parent: map<nat, Pte>, s: seq<Area>, a: nat, tables: nat -> bool, free: set<nat>, total: nat)
    requires Exclusive(parent, free, total) && Mapped(s, a) && a % PAGE_SIZE == 0
    ensures Tabled(parent, s, a + PAGE_SIZE, tables) <==> Tabled(parent, s, a, tables) && (a in parent ==> tables(a))
  {
    hide Mapped;
    forall b | b in parent && b < a + PAGE_SIZE
      ensures b <= a
    {
      NextAligned(a, b);
    }
  }

  lemma TabledGap(parent: map<nat, Pte>, s: seq<Area>, i: nat, tables: nat -> bool)
    requires Sorted(s) && i < |s|
    ensures Tabled(parent, s, EndOf(s, i), tables) <==> Tabled(parent, s, s[i].start, tables)
  {
    forall a: nat | Mapped(s, a) && a < s[i].start
      ensures a < EndOf(s, i)
    {
      var j :| 0 <= j < |s| && Covers(s[j], a);
      assert j < i;
    }
  }

  /** Every page that is copied gets its page table. */
  ghost predicate AllTabled(parent: map<nat, Pte>, s: seq<Area>, tables: nat -> bool)
  {
    forall a :: a in parent && Mapped(s, a) ==> tables(a)
  }

  lemma MappedInside(s: seq<Area>, i: nat)
    requires i < |s|
    ensures forall a: nat :: s[i].start <= a < s[i].end ==> Mapped(s, a)
  {
    forall a: nat | s[i].start <= a < s[i].end
      ensures Mapped(s, a)
    {
      assert Covers(s[i], a);
    }
  }

  /** What keeps an area out of the child's list is exactly that it cannot join. */
  lemma JoinsUnblocked(t: seq<Area>, s: seq<Area>, i: nat)
    requires Sorted(s) && i < |s| && Cloned(t, s, i)
    ensures Joins(s, i) <==> !Blocked(t, s[i])
  {
    forall v | v in t
      ensures v.start <= v.end <= s[i].start
    {
      var k :| 0 <= k < i && Joins(s, k) && s[k] == v;
    }
    if !Joins(s, i) {
      var j :| 0 <= j < i && s[j].start >= s[i].start;
      assert s[j].start == s[j].end && Joins(s, j) && Joined(s, i, s[j]);
      assert Blocks(s[j], s[i]);
    } else if m :| 0 <= m < |t| && Blocks(t[m], s[i]) {
      assert t[m] in t;
      var k :| 0 <= k < i && Joins(s, k) && s[k] == t[m];
    }
  }

  lemma CloneStep(t: seq<Area>, s: seq<Area>, i: nat, k: nat, t': seq<Area>)
    requires Sorted(s) && i < |s| && Cloned(t, s, i) && Slot(t, s[i], k)
    requires t' == if Blocked(t, s[i]) then t else Inserted(t, k, s[i])
    ensures Cloned(t', s, i + 1)
  {
    JoinsUnblocked(t, s, i);
    hide Blocked;
    forall v
      ensures v in t' <==> Joined(s, i + 1, v)
    {
      if Joined(s, i, v) { assert Joined(s, i + 1, v); }
      if j :| 0 <= j < i + 1 && Joins(s, j) && s[j] == v { assert j < i ==> Joined(s, i, v); }
      if v == s[i] && Joins(s, i) { assert Joined(s, i + 1, v); }
      assert v in Inserted(t, k, s[i]) <==> v in t || v == s[i] by {
        assert t == t[..k] + t[k..];
      }
    }
    if Solid(s) {
      assert forall j :: 0 <= j < i ==> t[j].start < s[i].start;
      assert Inserted(t, i, s[i]) == s[..i + 1];
    }
  }

  /** In a sorted list one area at most covers an address. */
  lemma LookupCovered(s: seq<Area>, k: nat, a: nat)
    requires Sorted(s) && k < |s| && Covers(s[k], a)
    ensures Lookup(s, a) == Some(BackingAt(s[k], a))
    ensures forall j :: 0 <= j < |s| && Covers(s[j], a) ==> j == k
  {
    LookupAt(s, a, k);
  }

  lemma JoinedAt(s: seq<Area>, k: nat)
    requires k < |s|
    ensures Joins(s, k) ==> Joined(s, |s|, s[k])
  {}

  lemma ClonedLookup(t: seq<Area>, s: seq<Area>, a: nat)
    requires Sorted(s) && Sorted(t) && Cloned(t, s, |s|)
    ensures Lookup(t, a) == if Dropped(s, a) then None else Lookup(s, a)
  {
    LookupSome(s, a);
    LookupSome(t, a);
    if m :| 0 <= m < |t| && Covers(t[m], a) {
      assert t[m] in t;
      var k :| 0 <= k < |s| && Joins(s, k) && s[k] == t[m];
      LookupCovered(t, m, a);
      LookupCovered(s, k, a);
    } else if k :| 0 <= k < |s| && Covers(s[k], a) {
      JoinedAt(s, k);
      assert s[k] !in t;
    }
  }

  /** The child has the parent's map exactly when every area of the parent could be inserted. */
  lemma ClonedMeans(t: seq<Area>, s: seq<Area>)
    requires Sorted(s) && Sorted(t) && Cloned(t, s, |s|)
    ensures Inherits(t, s) && (SameMap(t, s) <==> Ordered(s)) && (Solid(s) ==> t == s)
  {
    hide Cloned, Lookup, Dropped, Ordered, Sorted;
    forall a: nat ensures Lookup(t, a) == if Dropped(s, a) then None else Lookup(s, a) { ClonedLookup(t, s, a); }
    if Ordered(s) {
      NoneDropped(s);
    } else {
      var a := SomeDropped(s);
      assert Lookup(t, a) != Lookup(s, a);
    }
    ClonedSolid(t, s);
  }

  lemma NoneDropped(s: seq<Area>)
    requires Ordered(s)
    ensures forall a: nat :: !Dropped(s, a)
  {
  }

  lemma SomeDropped(s: seq<Area>) returns (a: nat)
    requires Sorted(s) && !Ordered(s)
    ensures Dropped(s, a) && Lookup(s, a).Some?
  {
    var i, j :| 0 <= i < j < |s| && !(s[i].start < s[j].start || s[j].start == s[j].end);
    a := s[j].start;
    assert Covers(s[j], a) && !Joins(s, j);
    LookupCovered(s, j, a);
  }

  lemma ClonedSolid(t: seq<Area>, s: seq<Area>)
    requires Cloned(t, s, |s|)
    ensures Solid(s) ==> t == s
  {
    assert s[..|s|] == s;
  }

  /**
   * The input for which a fork loses an area: with `v` at the bottom of the heap, a mapping whose
   * length wraps to zero is accepted in front of it, and the child's list then lacks `v`.
   */
  lemma EmptyAreaDropsNext(v: Area, length: nat, prot: bv32, flags: bv32, split: bool)
    requires Aligned(v) && v.start == USER_HEAP_BASE < v.end
    requires U64 - PAGE_SIZE < length < U64 && flags & MAP_FIXED == 0 && flags & MAP_ANONYMOUS != 0
    ensures var e := Requested(USER_HEAP_BASE, length, prot, flags, 0, 0);
      Place([v], 0, length, flags) == USER_HEAP_BASE && Accepts([v], 0, length, prot, flags, 0, 0, split) && Slot([v], e, 0) && !Blocked([v], e) &&
      !Ordered([e, v]) && !Joins([e, v], 1) &&
      forall t :: Sorted(t) && Cloned(t, [e, v], 2) ==> Lookup([e, v], v.start).Some? && Lookup(t, v.start).None?
  {
    var e := Requested(USER_HEAP_BASE, length, prot, flags, 0, 0);
    LengthWraps(length);
    var s := [e, v];
    assert s[0] == e && s[1] == v && e.start == e.end == v.start;
    assert Lowest([v], USER_HEAP_BASE, 0);
    assert Covers(s[1], v.start) && !Joins(s, 1) && Dropped(s, v.start);
    forall t | Sorted(t) && Cloned(t, s, 2)
      ensures Lookup(s, v.start).Some? && Lookup(t, v.start).None?
    {
      ClonedLookup(t, s, v.start);
      LookupCovered(s, 1, v.start);
    }
  }

  /** The child has a copy of exactly the parent's pages that lie in an area and could be mapped. */
  ghost predicate AllCopied(child: map<nat, Pte>, parent: map<nat, Pte>, page: map<nat, Bytes>, s: seq<Area>, tables: nat -> bool)
  {
    (forall a :: a in parent && Mapped(s, a) && tables(a) ==> Copied(child, parent, page, a)) &&
    forall a :: a in child ==> a in parent && Mapped(s, a) && tables(a)
  }

  lemma CopiesResident(child: map<nat, Pte>, parent: map<nat, Pte>, page: map<nat, Bytes>, s: seq<Area>, tables: nat -> bool)
    requires AllCopied(child, parent, page, s, tables)
    ensures Resident(child, page)
  {
    forall a | a in child ensures child[a].frame in page {
      assert Copied(child, parent, page, a);
    }
  }

  lemma CopiedToEnd(child: map<nat, Pte>, parent: map<nat, Pte>, page: map<nat, Bytes>, s: seq<Area>, tables: nat -> bool)
    requires Sorted(s) && CopiedSoFar(child, parent, page, s, EndOf(s, |s|), tables)
    ensures AllCopied(child, parent, page, s, tables)
    ensures Tabled(parent, s, EndOf(s, |s|), tables) <==> AllTabled(parent, s, tables)
  {
    forall a: nat | Mapped(s, a)
      ensures a < EndOf(s, |s|)
    {
      var j :| 0 <= j < |s| && Covers(s[j], a);
    }
  }

  /** `vmm_clone_address_space`; the flags say which allocations succeed. */
  method Clone(parent: AddressSpace, created: bool, memory: nat -> bool, tables: nat -> bool, mem: Pmm.PhysMem, ram: Ram)
    returns (child: AddressSpace?)
    requires parent.Valid() && mem.Valid() && Exclusive(parent.pt, mem.Free(), mem.total) && Resident(parent.pt, ram.page)
    modifies mem, mem.bitmap, ram
    ensures mem.Valid() && Exclusive(parent.pt, mem.Free(), mem.total) && Kept(ram.page, old(ram.page), old(mem.Free()))
    ensures child != null ==> fresh(child) && fresh(child.list) && fresh(child.list.repr)
    ensures child != null ==> child.Valid() && Isolated(parent.pt, child.pt, mem.Free(), mem.total)
    ensures child != null ==> AllCopied(child.pt, parent.pt, ram.page, parent.list.contents, tables)
    ensures child != null ==> Inherits(child.list.contents, parent.list.contents)
    ensures child != null ==> (SameMap(child.list.contents, parent.list.contents) <==> Ordered(parent.list.contents))
    ensures child != null && Solid(parent.list.contents) ==> child.list.contents == parent.list.contents
    ensures child != null ==>
      (mem.Free() + Frames(child.pt) == old(mem.Free()) <==> AllTabled(parent.pt, parent.list.contents, tables))
    ensures child == null ==> !created || mem.Free() == {} || exists v :: v in parent.list.contents && !memory(v.start)
    ensures mem.Free() <= old(mem.Free()) && (child != null ==> Frames(child.pt) <= old(mem.Free()))
  {
    hide Pmm.PhysMem.Valid, Pmm.PhysMem.Free, Exclusive, Kept, CopiedSoFar, AllCopied, Pmm.PhysMem.Shape, Aligned, Cloned, EndOf,
         Resident, Solid, Mapped, Isolated, Frames, Sorted, SameMap, Ordered, Inherits, Tabled, AllTabled, AddressSpace.Valid, List.Valid;
    KeptStart(ram.page, mem.Free());
    if !created { return null; }
    child := new AddressSpace();
    ghost var s := parent.list.contents;
    parent.StartsAtHead();
    CloneStarts(parent.pt, ram.page, mem.Free(), mem.total, s, tables);
    var v := parent.list.head;
    ghost var i := 0;
    while v != null
      invariant parent.Valid() && i <= |s| && |s| == |parent.list.nodes| && v == At(parent.list.nodes, i) && s == parent.list.contents
      invariant fresh(child) && fresh(child.list) && fresh(child.list.repr) && child.Valid() && Cloned(child.list.contents, s, i)
      invariant mem.Valid() && Isolated(parent.pt, child.pt, mem.Free(), mem.total) && Resident(parent.pt, ram.page)
      invariant mem.Free() + Frames(child.pt) <= old(mem.Free()) && Kept(ram.page, old(ram.page), old(mem.Free()))
      invariant CopiedSoFar(child.pt, parent.pt, ram.page, s, EndOf(s, i), tables)
      invariant mem.Free() + Frames(child.pt) == old(mem.Free()) <==> Tabled(parent.pt, s, EndOf(s, i), tables)
      decreases |s| - i
    {
      ghost var page, free := ram.page, mem.Free();
      parent.NodeAt(i);
      var ok := CloneArea(v.area, parent, child, s, i, memory(v.area.start), tables, mem, ram, old(mem.Free()));
      KeptStep(ram.page, page, old(ram.page), free, old(mem.Free()));
      if !ok {
        assert s[i] in s;
        return null;
      }
      v, i := v.next, i + 1;
    }
    CopiedToEnd(child.pt, parent.pt, ram.page, s, tables);
    child.StartsAtHead();
    ClonedMeans(child.list.contents, s);
  }

  lemma CloneStarts(parent: map<nat, Pte>, page: map<nat, Bytes>, free: set<nat>, total: nat, s: seq<Area>, tables: nat -> bool)
    requires Exclusive(parent, free, total)
    ensures Isolated(parent, map[], free, total) && CopiedSoFar(map[], parent, page, s, EndOf(s, 0), tables) && Frames(map[]) == {}
    ensures Cloned([], s, 0) && Tabled(parent, s, EndOf(s, 0), tables)
  {}
}
