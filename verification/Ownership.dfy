/** All address spaces of the machine over one physical memory. */
module Ownership {
  import opened Common
  import opened Areas
  import opened VmaList
  import opened Vmm
  import opened Fork
  import opened Protection
  import Pmm

  /** No mapped frame is free and no frame is mapped twice, in one page table or in two. */
  ghost predicate OneOwner(pts: seq<map<nat, Pte>>, free: set<nat>, total: nat)
  {
    0 !in free && (forall i :: 0 <= i < |pts| ==> Exclusive(pts[i], free, total)) &&
    forall i, j :: 0 <= i < j < |pts| ==> Frames(pts[i]) !! Frames(pts[j])
  }

  ghost predicate AllResident(pts: seq<map<nat, Pte>>, page: map<nat, Bytes>)
  {
    forall i :: 0 <= i < |pts| ==> Resident(pts[i], page)
  }

  /** What a process sees: its areas, and the flags and bytes of its pages. */
  datatype Image = Image(areas: seq<Area>, memory: map<nat, (bv32, Bytes)>)
  {
    predicate Writable(addr: nat)
    {
      var a := PageDown(addr);
      a in memory && memory[a].0 & 2 != 0 && addr - a < |memory[a].1|
    }

    /** No area is empty, and every page can be written exactly if it lies in an area that allows it. */
    ghost predicate Guarded()
    {
      Solid(areas) && forall a :: a in memory ==> Protects(memory[a].0, Lookup(areas, a))
    }

    /** The image with one byte changed. */
    function Stored(addr: nat, value: bv8): Image
      requires Writable(addr)
    {
      var a := PageDown(addr);
      this.(memory := memory[a := (memory[a].0, memory[a].1[addr - a := value])])
    }
  }

  ghost function Memory(pt: map<nat, Pte>, page: map<nat, Bytes>): map<nat, (bv32, Bytes)>
  {
    map a | a in pt && pt[a].frame in page :: (pt[a].flags, page[pt[a].frame])
  }

  /** What a child sees: its parent's areas that could be copied, and the pages in them with the same bytes. */
  ghost predicate Forked(child: Image, parent: Image, tables: nat -> bool)
  {
    Inherits(child.areas, parent.areas) && (SameMap(child.areas, parent.areas) <==> Ordered(parent.areas)) &&
    (forall a :: a in child.memory <==> a in parent.memory && Mapped(parent.areas, a) && tables(a)) &&
    (forall a :: a in child.memory ==> Unmarked(child.memory[a].0, parent.memory[a].0) && child.memory[a].1 == parent.memory[a].1) &&
    forall addr: nat :: PageDown(addr) in child.memory ==> (child.Writable(addr) <==> parent.Writable(addr))
  }

  lemma ForkedImage(child: map<nat, Pte>, parent: map<nat, Pte>, page: map<nat, Bytes>, t: seq<Area>, s: seq<Area>, tables: nat -> bool)
    requires AllCopied(child, parent, page, s, tables) && Resident(parent, page)
    requires Inherits(t, s) && (SameMap(t, s) <==> Ordered(s))
    ensures Forked(Image(t, Memory(child, page)), Image(s, Memory(parent, page)), tables)
  {
    hide Inherits, SameMap, Ordered, Mapped, Unmarked;
    CopiesResident(child, parent, page, s, tables);
    forall a | a in child
      ensures Copied(child, parent, page, a) && child[a].flags & 2 == parent[a].flags & 2
    {
      UnmarkedWritable(child[a].flags, parent[a].flags);
    }
  }

  /** The agreement of pages and areas, seen in the image. */
  lemma ImageGuarded(pt: map<nat, Pte>, page: map<nat, Bytes>, s: seq<Area>)
    requires Resident(pt, page)
    ensures Image(s, Memory(pt, page)).Guarded() <==> Guarded(pt, s)
  {
    hide Solid, Lookup, Protects;
    var m := Memory(pt, page);
    assert forall a :: a in pt <==> a in m;
    assert forall a :: a in pt ==> m[a].0 == pt[a].flags;
  }

  lemma GuardedSolid(pt: map<nat, Pte>, s: seq<Area>)
    requires Guarded(pt, s)
    ensures Solid(s)
  {}

  lemma NotEmpty(pt: map<nat, Pte>, s: seq<Area>, addr: nat, length: nat, flags: bv32, file: nat, offset: int)
    requires Guarded(pt, s) && length <= U64 - PAGE_SIZE
    ensures Solid(s) && (PageUp(length) > 0 || !Placeable(s, addr, length, flags, file, offset))
  {
    if length > 0 { LengthWraps(length); }
  }

  lemma ConfinedOutside(pt: map<nat, Pte>, page: map<nat, Bytes>, was: map<nat, Pte>, before: map<nat, Bytes>, free: set<nat>, at: nat, length: nat)
    ensures Confined(pt, page, was, before, free, at, at + length) ==> SameOutside(pt, was, at, at + length)
  {}

  lemma ExclusiveInjective(pt: map<nat, Pte>, free: set<nat>, total: nat)
    requires Exclusive(pt, free, total)
    ensures Injective(pt)
  {}

  lemma ServedCovered(b: Option<Backing>, pt: map<nat, Pte>, free: set<nat>, a: nat, code: bv32, table: bool)
    requires Served(b, pt, free, a, code, table)
    ensures b.Some?
  {}

  /** All frames that are mapped somewhere. */
  ghost function InUse(pts: seq<map<nat, Pte>>): set<nat>
  {
    if pts == [] then {} else InUse(pts[..|pts| - 1]) + Frames(pts[|pts| - 1])
  }

  lemma {:induction false} InUseUpdate(pts: seq<map<nat, Pte>>, i: nat, pt: map<nat, Pte>, free: set<nat>, free': set<nat>)
    requires i < |pts| && free' + Frames(pt) <= free + Frames(pts[i])
    ensures free' + InUse(pts[i := pt]) <= free + InUse(pts)
    ensures free' + Frames(pt) == free + Frames(pts[i]) ==> free' + InUse(pts[i := pt]) == free + InUse(pts)
  {
    hide Frames;
    var n := |pts| - 1;
    var q := pts[i := pt];
    if i == n {
      assert q[..n] == pts[..n];
    } else {
      InUseUpdate(pts[..n], i, pt, free, free');
      assert q[..n] == pts[..n][i := pt];
    }
  }

  /** No mapped frame is free. */
  lemma {:induction false} InUseApart(pts: seq<map<nat, Pte>>, free: set<nat>, total: nat)
    requires OneOwner(pts, free, total)
    ensures InUse(pts) !! free
  {
    if pts != [] { InUseApart(pts[..|pts| - 1], free, total); }
  }

  lemma InUseAppend(pts: seq<map<nat, Pte>>, pt: map<nat, Pte>)
    ensures InUse(pts + [pt]) == InUse(pts) + Frames(pt)
  {
    assert (pts + [pt])[..|pts|] == pts;
  }

  lemma OwnerAt(pts: seq<map<nat, Pte>>, i: nat, free: set<nat>, total: nat, page: map<nat, Bytes>)
    requires OneOwner(pts, free, total) && AllResident(pts, page) && i < |pts|
    ensures Exclusive(pts[i], free, total) && Resident(pts[i], page)
  {}

  lemma ClearedResident(pt: map<nat, Pte>, s: seq<Area>, lo: nat, hi: nat, page: map<nat, Bytes>)
    requires Resident(pt, page)
    ensures Resident(Cleared(pt, s, lo, hi), page) && Kept(page, page, Frames(pt)) && forall x :: Kept(page, page, x)
  {}

  /** Contents that cannot have changed are still there. */
  lemma Unseen(pt: map<nat, Pte>, page: map<nat, Bytes>, before: map<nat, Bytes>, changed: set<nat>)
    requires Resident(pt, before) && Kept(page, before, changed) && Frames(pt) !! changed
    ensures Resident(pt, page) && Memory(pt, page) == Memory(pt, before)
  {
    assert forall a :: a in pt ==> pt[a].frame in Frames(pt);
  }

  /** One page table and the free frames exchange frames: nobody else notices. */
  lemma ExchangeKeeps(pts: seq<map<nat, Pte>>, i: nat, pt: map<nat, Pte>, free: set<nat>, free': set<nat>, total: nat,
                      page: map<nat, Bytes>, before: map<nat, Bytes>)
    requires OneOwner(pts, free, total) && AllResident(pts, before) && i < |pts|
    requires Exclusive(pt, free', total) && free' + Frames(pt) <= free + Frames(pts[i])
    requires Resident(pt, page) && Kept(page, before, free + Frames(pts[i]))
    ensures OneOwner(pts[i := pt], free', total) && AllResident(pts[i := pt], page)
    ensures free' + InUse(pts[i := pt]) <= free + InUse(pts)
    ensures free' + Frames(pt) == free + Frames(pts[i]) ==> free' + InUse(pts[i := pt]) == free + InUse(pts)
    ensures forall j :: 0 <= j < |pts| && j != i ==> Memory(pts[j], page) == Memory(pts[j], before)
  {
    hide Frames, Injective, Resident, Kept, Memory, InUse;
    InUseUpdate(pts, i, pt, free, free');
    forall j | 0 <= j < |pts| && j != i
      ensures Exclusive(pts[j], free', total) && Frames(pts[j]) !! Frames(pt)
      ensures Resident(pts[j], page) && Memory(pts[j], page) == Memory(pts[j], before)
    {
      assert Frames(pts[j]) !! Frames(pts[i]);
      assert Frames(pts[j]) !! free + Frames(pts[i]);
      Unseen(pts[j], page, before, free + Frames(pts[i]));
    }
  }

  /** The contents of one frame change: its one owner sees it in one page, and nobody else does. */
  lemma StoreKeeps(pts: seq<map<nat, Pte>>, i: nat, a: nat, free: set<nat>, total: nat, page: map<nat, Bytes>, data: Bytes)
    requires OneOwner(pts, free, total) && AllResident(pts, page) && i < |pts| && a in pts[i]
    ensures var page' := page[pts[i][a].frame := data];
      AllResident(pts, page') && Memory(pts[i], page') == Memory(pts[i], page)[a := (pts[i][a].flags, data)] &&
      forall j :: 0 <= j < |pts| && j != i ==> Memory(pts[j], page') == Memory(pts[j], page)
  {
    var f := pts[i][a].frame;
    var page' := page[f := data];
    assert Exclusive(pts[i], free, total) && Resident(pts[i], page);
    assert f in Frames(pts[i]);
    forall j | 0 <= j < |pts|
      ensures Resident(pts[j], page') && (j != i ==> Memory(pts[j], page') == Memory(pts[j], page))
    {
      assert Resident(pts[j], page);
      if j != i {
        assert Frames(pts[i]) !! Frames(pts[j]);
        Unseen(pts[j], page', page, {f});
      }
    }
  }

  /** Free frames are used up: nobody notices. */
  lemma ShrinkKeeps(pts: seq<map<nat, Pte>>, free: set<nat>, free': set<nat>, total: nat, page: map<nat, Bytes>, before: map<nat, Bytes>)
    requires OneOwner(pts, free, total) && AllResident(pts, before) && free' <= free && Kept(page, before, free)
    ensures OneOwner(pts, free', total) && AllResident(pts, page)
    ensures forall j :: 0 <= j < |pts| ==> Memory(pts[j], page) == Memory(pts[j], before)
  {
    hide Frames, Injective, Resident, Kept, Memory;
    forall j | 0 <= j < |pts|
      ensures Exclusive(pts[j], free', total) && Resident(pts[j], page) && Memory(pts[j], page) == Memory(pts[j], before)
    {
      assert Exclusive(pts[j], free, total);
      Unseen(pts[j], page, before, free);
    }
  }

  /** A page table whose frames were free joins the others. */
  lemma JoinKeeps(pts: seq<map<nat, Pte>>, pt: map<nat, Pte>, free: set<nat>, free': set<nat>, total: nat, page: map<nat, Bytes>)
    requires OneOwner(pts, free, total) && OneOwner(pts, free', total) && AllResident(pts, page)
    requires Exclusive(pt, free', total) && Frames(pt) <= free && Resident(pt, page)
    ensures OneOwner(pts + [pt], free', total) && AllResident(pts + [pt], page)
  {
    hide Frames, Injective, Resident;
    forall j | 0 <= j < |pts| ensures Frames(pts[j]) !! Frames(pt) {
      assert Exclusive(pts[j], free, total);
    }
  }

  lemma EmptyJoins(pts: seq<map<nat, Pte>>, free: set<nat>, total: nat, page: map<nat, Bytes>)
    requires OneOwner(pts, free, total) && AllResident(pts, page)
    ensures OneOwner(pts + [map[]], free, total) && AllResident(pts + [map[]], page) && InUse(pts + [map[]]) == InUse(pts)
  {
    assert Frames(map[]) == {};
    JoinKeeps(pts, map[], free, free, total, page);
    InUseAppend(pts, map[]);
  }

  /** One operation of the memory manager, with the outcomes of the allocations that it tries. */
  datatype Op =
    | Creates
    | Unmaps(who: nat, addr: nat, length: nat, split: bool)
    | Maps(who: nat, addr: nat, length: nat, prot: bv32, flags: bv32, file: nat, offset: int, split: bool, memory: bool,
           tables: nat -> bool, read: int -> Option<Bytes>)
    | Faults(who: nat, addr: nat, code: bv32, table: bool)
    | Writes(who: nat, addr: nat, value: bv8)
    | Forks(who: nat, created: bool, copies: nat -> bool, tables: nat -> bool)
  {
    /** Addresses and lengths are 64-bit words. */
    predicate Words() { Unmaps? || Maps? ==> addr < U64 && length < U64 }

    /** The area that a mapping request asks for. */
    ghost function Wanted(at: nat): Area
      requires Maps?
    {
      Requested(at, length, prot, flags, file, offset)
    }

    /** No mapping whose length wraps to zero. */
    predicate Sane() { Maps? ==> length <= U64 - PAGE_SIZE }

    /** The operation is one of the process at position `j` on its own memory. */
    predicate Changes(j: nat) { (Unmaps? || Maps? || Faults? || Writes?) && who == j }
  }

  /** The whole machine: areas and page tables of all processes, the contents of the frames, and the free frames. */
  datatype Sight = Sight(areas: seq<seq<Area>>, pts: seq<map<nat, Pte>>, page: map<nat, Bytes>, free: set<nat>)
  {
    ghost predicate Has(i: nat) { i < |areas| && i < |pts| }

    ghost function ImageOf(i: nat): Image
      requires Has(i)
    {
      Image(areas[i], Memory(pts[i], page))
    }
  }

  /** Only the process at position `i` has other areas and another page table, and no frame appears from nowhere. */
  ghost predicate Alone(x: Sight, y: Sight, i: nat)
  {
    x.Has(i) && y.Has(i) && y.areas == x.areas[i := y.areas[i]] && y.pts == x.pts[i := y.pts[i]] &&
    y.free + Frames(y.pts[i]) <= x.free + Frames(x.pts[i])
  }

  /** What `vmm_munmap` does. */
  ghost predicate Unmapping(x: Sight, y: Sight, i: nat, addr: nat, length: nat, split: bool)
  {
    Alone(x, y, i) && y.page == x.page && y.free + Frames(y.pts[i]) == x.free + Frames(x.pts[i]) &&
    if addr + length >= U64 then y.areas == x.areas && y.pts == x.pts
    else
      var lo, hi := PageDown(addr), PageEnd(addr + length);
      y.areas[i] == AfterUnmap(x.areas[i], lo, hi, split) &&
      y.pts[i] == if hi < U64 then Cleared(x.pts[i], x.areas[i], lo, hi) else x.pts[i]
  }

  /** What `vmm_mmap` does. */
  ghost predicate Mapping(x: Sight, y: Sight, op: Op)
    requires op.Maps?
  {
    Alone(x, y, op.who) && y.free + Frames(y.pts[op.who]) == x.free + Frames(x.pts[op.who]) &&
    var s, t, was, pt := x.areas[op.who], y.areas[op.who], x.pts[op.who], y.pts[op.who];
    var at, hi, fixed := Place(s, op.addr, op.length, op.flags), Place(s, op.addr, op.length, op.flags) + PageUp(op.length), op.flags & 0x10 != 0;
    if !Placeable(s, op.addr, op.length, op.flags, op.file, op.offset) then t == s && pt == was && y.page == x.page
    else
      var accepted := op.memory && Accepts(s, op.addr, op.length, op.prot, op.flags, op.file, op.offset, op.split);
      var u := UnderneathPages(was, s, fixed, at, hi);
      Confined(pt, y.page, was, x.page, x.free, at, hi) &&
      if op.flags & 0x20 != 0 then
        pt == u && if accepted then Overrides(t, s, op.Wanted(at)) else GivenUp(t, s, fixed, at, hi, op.split)
      else if accepted && CanFill(u, Spare(x.free, was, u), at, hi, op.offset - at, op.tables, op.read) then
        Overrides(t, s, op.Wanted(at)) && Loaded(pt, y.page, at, hi, op.prot, op.offset - at, op.read)
      else
        GivenUp(t, s, fixed, at, hi, op.split) && pt == Leaves(was, s, fixed, accepted, at, hi)
  }

  /** What `vmm_mmap` promises about its address space is what it does to the machine. */
  lemma MmapIsMapping(x: Sight, y: Sight, op: Op, r: Option<nat>)
    requires op.Maps? && Alone(x, y, op.who) && y.free + Frames(y.pts[op.who]) == x.free + Frames(x.pts[op.who])
    requires
      var s, was, at := x.areas[op.who], x.pts[op.who], Place(x.areas[op.who], op.addr, op.length, op.flags);
      r.Some? <==>
        (op.memory && Accepts(s, op.addr, op.length, op.prot, op.flags, op.file, op.offset, op.split) &&
         (op.flags & MAP_ANONYMOUS == 0 ==>
            var u := UnderneathPages(was, s, op.flags & MAP_FIXED != 0, at, at + PageUp(op.length));
            CanFill(u, Spare(x.free, was, u), at, at + PageUp(op.length), op.offset - at, op.tables, op.read)))
    requires r.Some? ==> r.value == Place(x.areas[op.who], op.addr, op.length, op.flags)
    requires r.Some? ==>
      Overrides(y.areas[op.who], x.areas[op.who], Requested(r.value, op.length, op.prot, op.flags, op.file, op.offset))
    requires r.Some? && op.flags & MAP_ANONYMOUS == 0 ==>
      Loaded(y.pts[op.who], y.page, r.value, r.value + PageUp(op.length), op.prot, op.offset - r.value, op.read)
    requires Placeable(x.areas[op.who], op.addr, op.length, op.flags, op.file, op.offset) ==>
      var s, was, at := x.areas[op.who], x.pts[op.who], Place(x.areas[op.who], op.addr, op.length, op.flags);
      Confined(y.pts[op.who], y.page, was, x.page, x.free, at, at + PageUp(op.length)) &&
      (r.None? ==> GivenUp(y.areas[op.who], s, op.flags & MAP_FIXED != 0, at, at + PageUp(op.length), op.split)) &&
      (r.None? || op.flags & MAP_ANONYMOUS != 0 ==>
         var tried := op.flags & MAP_ANONYMOUS == 0 && op.memory &&
           Accepts(s, op.addr, op.length, op.prot, op.flags, op.file, op.offset, op.split);
         y.pts[op.who] == Leaves(was, s, op.flags & MAP_FIXED != 0, tried, at, at + PageUp(op.length)))
    requires !Placeable(x.areas[op.who], op.addr, op.length, op.flags, op.file, op.offset) ==>
      y.areas[op.who] == x.areas[op.who] && y.pts[op.who] == x.pts[op.who] && y.page == x.page
    ensures Mapping(x, y, op)
  {
    hide Frames, Spare, CanFill, Place, Accepts, Placeable, Loaded, GivenUp, Overrides, Confined, PageUp, UnderneathPages, AreaFlags;
  }

  /** A mapping whose length does not wrap keeps pages and areas in agreement. */
  lemma MappingGuarded(x: Sight, y: Sight, op: Op, total: nat)
    requires op.Maps? && Mapping(x, y, op) && Guarded(x.pts[op.who], x.areas[op.who]) && Exclusive(y.pts[op.who], y.free, total)
    requires op.length <= U64 - PAGE_SIZE && (Solid(x.areas[op.who]) && PageUp(op.length) > 0 ==> Solid(y.areas[op.who]))
    ensures Guarded(y.pts[op.who], y.areas[op.who])
  {
    hide Frames, Guarded, Solid, Spare, CanFill, Place, Accepts, Placeable, Loaded, GivenUp, Overrides, Confined, PageUp, UnderneathPages,
         AreaFlags, Exclusive;
    var s, was, pt := x.areas[op.who], x.pts[op.who], y.pts[op.who];
    var at, fixed := Place(s, op.addr, op.length, op.flags), op.flags & MAP_FIXED != 0;
    var hi := at + PageUp(op.length);
    var accepted := op.memory && Accepts(s, op.addr, op.length, op.prot, op.flags, op.file, op.offset, op.split);
    var u := UnderneathPages(was, s, fixed, at, hi);
    var filled := CanFill(u, Spare(x.free, was, u), at, hi, op.offset - at, op.tables, op.read);
    var r := if accepted && (op.flags & MAP_ANONYMOUS != 0 || filled) then Some(at) else None;
    var tried := op.flags & MAP_ANONYMOUS == 0 && accepted;
    NotEmpty(was, s, op.addr, op.length, op.flags, op.file, op.offset);
    ConfinedOutside(pt, y.page, was, x.page, x.free, at, PageUp(op.length));
    ExclusiveInjective(pt, y.free, total);
    LeavesUntried(was, s, fixed, at, hi);
    AcceptsPlaceable(s, op.addr, op.length, op.prot, op.flags, op.file, op.offset, op.split);
    MmapGuarded(was, s, pt, y.areas[op.who], y.page, r, op.addr, op.length, op.prot, op.flags, op.file, op.offset, op.split, tried, op.read);
  }

  lemma AcceptsPlaceable(s: seq<Area>, addr: nat, length: nat, prot: bv32, flags: bv32, file: nat, offset: int, split: bool)
    ensures Accepts(s, addr, length, prot, flags, file, offset, split) ==> Placeable(s, addr, length, flags, file, offset)
  {}

  /** What `vmm_handle_page_fault` does. */
  ghost predicate Faulting(x: Sight, y: Sight, i: nat, addr: nat, code: bv32, table: bool)
  {
    Alone(x, y, i) && y.areas == x.areas && Kept(y.page, x.page, x.free) &&
    var b, a := Lookup(x.areas[i], addr), PageDown(addr);
    if Served(b, x.pts[i], x.free, a, code, table) then b.Some? && PagedIn(y.pts[i], y.page, x.pts[i], x.page, a, b.value.prot)
    else y.pts == x.pts
  }

  /** What a store by a user program does. */
  ghost predicate Storing(x: Sight, y: Sight, i: nat, addr: nat, value: bv8)
  {
    x.Has(i) && y == x.(page := y.page) && y.ImageOf(i) == if x.ImageOf(i).Writable(addr) then x.ImageOf(i).Stored(addr, value) else x.ImageOf(i)
  }

  /** What `vmm_clone_address_space` does: the child comes last, or there is none for want of memory. */
  ghost predicate Forking(x: Sight, y: Sight, i: nat, created: bool, copies: nat -> bool, tables: nat -> bool)
  {
    x.Has(i) && |x.areas| == |x.pts| && y.free <= x.free && Kept(y.page, x.page, x.free) &&
    if y.areas == x.areas then
      y.pts == x.pts && (!created || y.free == {} || exists v :: v in x.areas[i] && !copies(v.start))
    else
      var n := |x.areas|;
      y.Has(n) && y.areas == x.areas + [y.areas[n]] && y.pts == x.pts + [y.pts[n]] && Frames(y.pts[n]) <= x.free &&
      Forked(y.ImageOf(n), x.ImageOf(i), tables)
  }

  /** A child joins: its frames were free, it sees what it should, and it agrees with its areas if its parent did. */
  lemma ChildJoins(x: Sight, i: nat, pt: map<nat, Pte>, t: seq<Area>, page: map<nat, Bytes>, free: set<nat>, total: nat, tables: nat -> bool)
    requires x.Has(i) && OneOwner(x.pts, x.free, total) && OneOwner(x.pts, free, total) && AllResident(x.pts, page)
    requires Exclusive(pt, free, total) && Frames(pt) <= x.free && AllCopied(pt, x.pts[i], page, x.areas[i], tables)
    requires Inherits(t, x.areas[i]) && (SameMap(t, x.areas[i]) <==> Ordered(x.areas[i])) && (Solid(x.areas[i]) ==> t == x.areas[i])
    requires Memory(x.pts[i], page) == Memory(x.pts[i], x.page)
    ensures OneOwner(x.pts + [pt], free, total) && AllResident(x.pts + [pt], page) && InUse(x.pts + [pt]) == InUse(x.pts) + Frames(pt)
    ensures InUse(x.pts) !! x.free && Forked(Image(t, Memory(pt, page)), x.ImageOf(i), tables)
    ensures x.ImageOf(i).Guarded() ==> Image(t, Memory(pt, page)).Guarded()
  {
    hide Exclusive, Frames, Resident, OneOwner, AllResident, Memory, InUse, AllCopied, Inherits, SameMap, Ordered, Solid,
         Image.Guarded, Guarded, Forked;
    var parent, s := x.pts[i], x.areas[i];
    OwnerAt(x.pts, i, free, total, page);
    ForkedImage(pt, parent, page, t, s, tables);
    CopiesResident(pt, parent, page, s, tables);
    ImageGuarded(parent, page, s);
    ImageGuarded(pt, page, t);
    if Guarded(parent, s) {
      CloneGuarded(parent, s, pt, page, tables);
      GuardedSolid(parent, s);
    }
    JoinKeeps(x.pts, pt, x.free, free, total, page);
    InUseAppend(x.pts, pt);
    InUseApart(x.pts, x.free, total);
  }

  /** What an operation does to the machine; one that names no process does nothing. */
  ghost predicate Step(op: Op, x: Sight, y: Sight)
  {
    if !op.Creates? && op.who >= |x.areas| then y == x
    else
      match op
      case Creates => y == x.(areas := x.areas + [[]], pts := x.pts + [map[]])
      case Unmaps(i, addr, length, split) => Unmapping(x, y, i, addr, length, split)
      case Maps(_, _, _, _, _, _, _, _, _, _, _) => Mapping(x, y, op)
      case Faults(i, addr, code, table) => Faulting(x, y, i, addr, code, table)
      case Writes(i, addr, value) => Storing(x, y, i, addr, value)
      case Forks(i, created, copies, tables) => Forking(x, y, i, created, copies, tables)
  }

  ghost predicate Disjoint(parts: seq<set<object>>)
  {
    forall i, j :: 0 <= i < j < |parts| ==> parts[i] !! parts[j]
  }

  /** The address space is in order, lies in its own part of the heap and has these areas and this page table. */
  ghost predicate Home(a: AddressSpace, part: set<object>, s: seq<Area>, pt: map<nat, Pte>)
    reads a, part
  {
    a in part && a.list in part && a.list.repr <= part && a.Valid() && a.list.contents == s && a.pt == pt
  }

  lemma GrowsApart(parts: seq<set<object>>, i: nat, part: set<object>, all: set<object>)
    requires Disjoint(parts) && i < |parts| && parts[i] <= part && part - parts[i] !! all
    requires forall j :: 0 <= j < |parts| ==> parts[j] <= all
    ensures Disjoint(parts[i := part])
  {}

  class Machine {
    const mem: Pmm.PhysMem
    const ram: Ram
    var spaces: seq<AddressSpace>
    ghost var areas: seq<seq<Area>>
    ghost var pts: seq<map<nat, Pte>>
    ghost var parts: seq<set<object>>
    ghost var repr: set<object>

    constructor (mem: Pmm.PhysMem, ram: Ram)
      requires mem.Valid() && 0 !in mem.Free()
      ensures Valid() && spaces == [] && this.mem == mem && this.ram == ram && repr == {}
    {
      this.mem, this.ram := mem, ram;
      spaces, areas, pts, parts, repr := [], [], [], [], {};
    }

    /** The address spaces are in order and share neither list nor nodes. */
    ghost predicate Apart()
      reads this, repr
    {
      |areas| == |pts| == |parts| == |spaces| && Disjoint(parts) &&
      forall i :: 0 <= i < |spaces| ==> parts[i] <= repr && spaces[i] in parts[i] && Home(spaces[i], parts[i], areas[i], pts[i])
    }

    /** Every frame has one owner and every mapped page has contents. */
    ghost predicate Owned()
      reads this, mem, mem.bitmap, ram
    {
      mem.Valid() && OneOwner(pts, mem.Free(), mem.total) && AllResident(pts, ram.page)
    }

    ghost predicate Valid()
      reads this, repr, mem, mem.bitmap, ram
    {
      Apart() && Owned()
    }

    ghost function View(): Sight
      requires mem.Shape()
      reads this, mem, mem.bitmap, ram
    {
      Sight(areas, pts, ram.page, mem.Free())
    }

    ghost function ImageOf(j: nat): Image
      requires Apart() && j < |spaces|
      reads this, repr, ram
    {
      Image(areas[j], Memory(pts[j], ram.page))
    }

    /** In every process pages and areas agree on what may be written. */
    ghost predicate AllGuarded()
      requires Apart()
      reads this, repr, ram
    {
      forall j :: 0 <= j < |spaces| ==> ImageOf(j).Guarded()
    }

    /** The frames that are free or mapped. */
    ghost function Accounted(): set<nat>
      requires mem.Shape()
      reads this, mem, mem.bitmap
    {
      mem.Free() + InUse(pts)
    }

    /** Takes note of what an operation did to the address space at position `i`. */
    ghost method Settle(s: AddressSpace, i: nat)
      requires |areas| == |pts| == |parts| == |spaces| && Disjoint(parts) && i < |spaces| && spaces[i] == s
      requires s in parts[i] && s.list in parts[i] && s.list.repr - parts[i] !! repr && s.Valid()
      requires forall j :: 0 <= j < |spaces| ==> parts[j] <= repr && spaces[j] in parts[j]
      requires forall j :: 0 <= j < |spaces| && j != i ==> Home(spaces[j], parts[j], areas[j], pts[j])
      modifies `areas, `pts, `parts, `repr
      ensures Apart() && areas == old(areas)[i := s.list.contents] && pts == old(pts)[i := s.pt] && repr == old(repr) + s.list.repr
    {
      hide AddressSpace.Valid;
      GrowsApart(parts, i, parts[i] + s.list.repr, repr);
      areas, pts, parts := areas[i := s.list.contents], pts[i := s.pt], parts[i := parts[i] + s.list.repr];
      repr := repr + s.list.repr;
    }

    /** `vmm_munmap` in one of the address spaces. */
    method Munmap(s: AddressSpace, ghost i: nat, addr: nat, length: nat, split: bool) returns (err: int)
      requires Valid() && i < |spaces| && spaces[i] == s && addr < U64 && length < U64
      modifies `areas, `pts, `parts, `repr, s`pt, s.list, s.list.repr, mem, mem.bitmap
      ensures Valid() && fresh(repr - old(repr)) && Accounted() == old(Accounted())
      ensures forall j :: 0 <= j < |spaces| && j != i ==> ImageOf(j) == old(ImageOf(j))
      ensures Unmapping(old(View()), View(), i, addr, length, split) && err == if addr + length < U64 then 0 else -22
      ensures old(ImageOf(i)).Guarded() ==> ImageOf(i).Guarded()
    {
      hide Pmm.PhysMem.Valid, Pmm.PhysMem.Free, Exclusive, Frames, Resident, OneOwner, AllResident, Memory, InUse, Kept,
           AddressSpace.Valid, List.Valid, AfterUnmap, PageDown, PageEnd, Cleared, Image.Guarded, Guarded;
      s.StartsAtHead();
      ghost var free, was, areas := mem.Free(), pts, s.list.contents;
      OwnerAt(pts, i, free, mem.total, ram.page);
      err := s.Munmap(addr, length, split, mem);
      ClearedResident(was[i], areas, PageDown(addr), PageEnd(addr + length), ram.page);
      ImageGuarded(was[i], ram.page, areas);
      ImageGuarded(s.pt, ram.page, s.list.contents);
      if Guarded(was[i], areas) { MunmapGuarded(was[i], areas, s.pt, s.list.contents, addr, length, split, err); }
      ExchangeKeeps(pts, i, s.pt, free, mem.Free(), mem.total, ram.page, ram.page);
      Settle(s, i);
    }

    /** `vmm_mmap` in one of the address spaces. */
    method Mmap(s: AddressSpace, ghost i: nat, addr: nat, length: nat, prot: bv32, flags: bv32, file: nat, offset: int, split: bool,
                memory: bool, tables: nat -> bool, read: int -> Option<Bytes>) returns (r: Option<nat>)
      requires Valid() && i < |spaces| && spaces[i] == s && addr < U64 && length < U64
      modifies `areas, `pts, `parts, `repr, s`pt, s.list, s.list.repr, mem, mem.bitmap, ram
      ensures Valid() && fresh(repr - old(repr)) && Accounted() == old(Accounted())
      ensures forall j :: 0 <= j < |spaces| && j != i ==> ImageOf(j) == old(ImageOf(j))
      ensures Mapping(old(View()), View(), Maps(i, addr, length, prot, flags, file, offset, split, memory, tables, read))
      ensures old(ImageOf(i)).Guarded() && length <= U64 - PAGE_SIZE ==> ImageOf(i).Guarded()
    {
      hide Pmm.PhysMem.Valid, Pmm.PhysMem.Free, Exclusive, Frames, Resident, OneOwner, AllResident, Memory, InUse, Kept, Spare, CanFill,
           AddressSpace.Valid, List.Valid, Place, Accepts, Placeable, Loaded, GivenUp, Overrides, Confined, Leaves, PageUp, Solid,
           Image.Guarded, Guarded, Requested, UnderneathPages, Mapping;
      ghost var x, op := View(), Maps(i, addr, length, prot, flags, file, offset, split, memory, tables, read);
      OwnerAt(pts, i, mem.Free(), mem.total, ram.page);
      r := s.Mmap(addr, length, prot, flags, file, offset, split, memory, tables, read, mem, ram);
      ExchangeKeeps(pts, i, s.pt, x.free, mem.Free(), mem.total, ram.page, x.page);
      Settle(s, i);
      MmapIsMapping(x, View(), op, r);
      ImageGuarded(x.pts[i], x.page, x.areas[i]);
      ImageGuarded(s.pt, ram.page, s.list.contents);
      if Guarded(x.pts[i], x.areas[i]) && length <= U64 - PAGE_SIZE { MappingGuarded(x, View(), op, mem.total); }
    }

    /** `vmm_handle_page_fault` in one of the address spaces. */
    method Fault(s: AddressSpace, ghost i: nat, addr: nat, code: bv32, table: bool) returns (err: int)
      requires Valid() && i < |spaces| && spaces[i] == s
      modifies `areas, `pts, `parts, `repr, s`pt, mem, mem.bitmap, ram
      ensures Valid() && repr == old(repr) && Accounted() <= old(Accounted())
      ensures forall j :: 0 <= j < |spaces| && j != i ==> ImageOf(j) == old(ImageOf(j))
      ensures Faulting(old(View()), View(), i, addr, code, table)
      ensures old(ImageOf(i)).Guarded() ==> ImageOf(i).Guarded()
    {
      hide Pmm.PhysMem.Valid, Pmm.PhysMem.Free, Exclusive, Frames, Resident, OneOwner, AllResident, Memory, InUse, Kept,
           List.Valid, Served, PagedIn, Lookup, PageDown, Sorted, Image.Guarded, Guarded;
      ghost var free, page, was := mem.Free(), ram.page, s.pt;
      OwnerAt(pts, i, free, mem.total, page);
      err := s.Fault(addr, code, table, mem, ram);
      ImageGuarded(was, page, s.list.contents);
      ImageGuarded(s.pt, ram.page, s.list.contents);
      if err == 0 && Guarded(was, s.list.contents) {
        ServedCovered(Lookup(s.list.contents, addr), was, free, PageDown(addr), code, table);
        FaultGuarded(was, s.list.contents, s.pt, ram.page, page, addr);
      }
      KeptStart(page, free + Frames(pts[i]));
      KeptStep(ram.page, page, page, free, free + Frames(pts[i]));
      ExchangeKeeps(pts, i, s.pt, free, mem.Free(), mem.total, ram.page, page);
      Settle(s, i);
    }

    /** A process stores a byte: the hardware lets it if the page is present and writable. */
    method Store(s: AddressSpace, ghost i: nat, addr: nat, value: bv8) returns (ok: bool)
      requires Valid() && i < |spaces| && spaces[i] == s
      modifies ram
      ensures Valid() && Accounted() == old(Accounted())
      ensures ok <==> old(ImageOf(i)).Writable(addr)
      ensures ImageOf(i) == if ok then old(ImageOf(i)).Stored(addr, value) else old(ImageOf(i))
      ensures Storing(old(View()), View(), i, addr, value)
      ensures old(ImageOf(i)).Guarded() ==> ImageOf(i).Guarded()
      ensures forall j :: 0 <= j < |spaces| && j != i ==> ImageOf(j) == old(ImageOf(j))
    {
      hide Pmm.PhysMem.Valid, Pmm.PhysMem.Free, OneOwner, AllResident, InUse, AddressSpace.Valid, List.Valid, Frames;
      OwnerAt(pts, i, mem.Free(), mem.total, ram.page);
      assert Home(s, parts[i], areas[i], pts[i]);
      var a := PageDown(addr);
      ok := a in s.pt && s.pt[a].flags & PTE_WRITABLE != 0 && addr - a < |ram.page[s.pt[a].frame]|;
      if ok {
        var f := s.pt[a].frame;
        StoreKeeps(pts, i, a, mem.Free(), mem.total, ram.page, ram.page[f][addr - a := value]);
        ram.page := ram.page[f := ram.page[f][addr - a := value]];
      }
    }

    /** Adds an address space that nobody else uses. */
    method Admit(s: AddressSpace)
      requires Apart() && s.Valid() && s !in repr && s.list !in repr && s.list.repr !! repr
      modifies `spaces, `areas, `pts, `parts, `repr
      ensures Apart() && spaces == old(spaces) + [s] && areas == old(areas) + [s.list.contents] && pts == old(pts) + [s.pt]
      ensures repr == old(repr) + {s, s.list} + s.list.repr
    {
      hide AddressSpace.Valid;
      ghost var part: set<object> := {s, s.list} + s.list.repr;
      spaces, areas, pts, parts := spaces + [s], areas + [s.list.contents], pts + [s.pt], parts + [part];
      repr := repr + part;
    }

    /** `vmm_create_address_space`. */
    method Create()
      requires Valid()
      modifies `spaces, `areas, `pts, `parts, `repr
      ensures Valid() && fresh(repr - old(repr)) && Accounted() == old(Accounted())
      ensures old(spaces) <= spaces && |spaces| == |old(spaces)| + 1
      ensures View() == old(View()).(areas := old(areas) + [[]], pts := old(pts) + [map[]])
      ensures forall j :: 0 <= j < |old(spaces)| ==> ImageOf(j) == old(ImageOf(j))
      ensures ImageOf(|old(spaces)|) == Image([], map[]) && ImageOf(|old(spaces)|).Guarded()
    {
      hide Pmm.PhysMem.Valid, Pmm.PhysMem.Free, InUse, OneOwner, AllResident, AddressSpace.Valid, List.Valid;
      var s := new AddressSpace();
      EmptyJoins(pts, mem.Free(), mem.total, ram.page);
      Admit(s);
    }

    /** `vmm_clone_address_space` of one of the address spaces: the child joins them. */
    method Clone(s: AddressSpace, ghost i: nat, created: bool, copies: nat -> bool, tables: nat -> bool) returns (ok: bool)
      requires Valid() && i < |spaces| && spaces[i] == s
      modifies `spaces, `areas, `pts, `parts, `repr, mem, mem.bitmap, ram
      ensures Valid() && fresh(repr - old(repr)) && Accounted() <= old(Accounted())
      ensures old(spaces) <= spaces && |spaces| == |old(spaces)| + if ok then 1 else 0
      ensures forall j :: 0 <= j < |old(spaces)| ==> ImageOf(j) == old(ImageOf(j))
      ensures Forking(old(View()), View(), i, created, copies, tables)
      ensures ok ==> Forked(ImageOf(|old(spaces)|), old(ImageOf(i)), tables)
      ensures ok && old(ImageOf(i)).Guarded() ==> ImageOf(|old(spaces)|).Guarded()
      ensures ok ==> (Accounted() == old(Accounted()) <==> AllTabled(old(pts)[i], old(ImageOf(i)).areas, tables))
    {
      hide Pmm.PhysMem.Valid, Pmm.PhysMem.Free, Exclusive, Frames, Resident, OneOwner, AllResident, Memory, InUse, Kept,
           AddressSpace.Valid, List.Valid, AllCopied, Inherits, SameMap, Ordered, Solid, AllTabled,
           Image.Guarded, Guarded, Forked;
      ghost var x := View();
      OwnerAt(pts, i, x.free, mem.total, x.page);
      var child := Fork.Clone(s, created, copies, tables, mem, ram);
      ShrinkKeeps(pts, x.free, mem.Free(), mem.total, ram.page, x.page);
      ok := child != null;
      if ok {
        ChildJoins(x, i, child.pt, child.list.contents, ram.page, mem.Free(), mem.total, tables);
        Admit(child);
      }
    }

    lemma InRepr(i: nat)
      requires Apart() && i < |spaces|
      ensures spaces[i] in repr && spaces[i].list in repr && spaces[i].list.repr <= repr
    {
      assert Home(spaces[i], parts[i], areas[i], pts[i]);
    }

    lemma SameNumber()
      requires Apart()
      ensures |areas| == |spaces|
    {}

    /** One operation; one that names no process does nothing. */
    method Do(op: Op)
      requires Valid() && op.Words()
      modifies this, repr, mem, mem.bitmap, ram
      ensures Valid() && fresh(repr - old(repr)) && Accounted() <= old(Accounted()) && old(spaces) <= spaces
      ensures forall j :: 0 <= j < |old(spaces)| && !op.Changes(j) ==> ImageOf(j) == old(ImageOf(j))
      ensures Step(op, old(View()), View())
      ensures old(AllGuarded()) && op.Sane() ==> AllGuarded()
    {
      hide Owned, Apart, Accounted, ImageOf, Image.Guarded, Forked, Unmapping, Mapping, Faulting, Storing, Forking;
      SameNumber();
      match op
      case Creates =>
        Create();
      case Unmaps(i, addr, length, split) =>
        if i < |spaces| {
          InRepr(i);
          var err := Munmap(spaces[i], i, addr, length, split);
        }
      case Maps(i, addr, length, prot, flags, file, offset, split, memory, tables, read) =>
        if i < |spaces| {
          InRepr(i);
          var r := Mmap(spaces[i], i, addr, length, prot, flags, file, offset, split, memory, tables, read);
        }
      case Faults(i, addr, code, table) =>
        if i < |spaces| {
          InRepr(i);
          var err := Fault(spaces[i], i, addr, code, table);
        }
      case Writes(i, addr, value) =>
        if i < |spaces| {
          var ok := Store(spaces[i], i, addr, value);
        }
      case Forks(i, created, copies, tables) =>
        if i < |spaces| {
          InRepr(i);
          var ok := Clone(spaces[i], i, created, copies, tables);
        }
    }

    /**
     * Any number of processes doing anything in any order: every frame keeps at most one owner, no frame
     * appears from nowhere, and a process that does nothing itself goes on seeing the same areas and bytes.
     * Unless a mapping length wraps to zero, a page can be written exactly if it lies in an area that allows it.
     * The `trace` shows the machine between the operations: each did what it does, one after the other.
     */
    method Run(ops: seq<Op>) returns (ghost trace: seq<Sight>)
      requires Valid() && forall k :: 0 <= k < |ops| ==> ops[k].Words()
      modifies this, repr, mem, mem.bitmap, ram
      ensures Valid() && fresh(repr - old(repr)) && Accounted() <= old(Accounted()) && old(spaces) <= spaces
      ensures forall j :: 0 <= j < |old(spaces)| && (forall k :: 0 <= k < |ops| ==> !ops[k].Changes(j)) ==> ImageOf(j) == old(ImageOf(j))
      ensures old(AllGuarded()) && (forall k :: 0 <= k < |ops| ==> ops[k].Sane()) ==> AllGuarded()
      ensures |trace| == |ops| + 1 && trace[0] == old(View()) && trace[|ops|] == View()
      ensures forall k :: 0 <= k < |ops| ==> Step(ops[k], trace[k], trace[k + 1])
    {
      hide Apart, Accounted, ImageOf, OneOwner, AllResident, Pmm.PhysMem.Shape, Step;
      trace := [View()];
      for n := 0 to |ops|
        invariant Valid() && fresh(repr - old(repr)) && Accounted() <= old(Accounted()) && old(spaces) <= spaces
        invariant forall j :: 0 <= j < |old(spaces)| && (forall k :: 0 <= k < n ==> !ops[k].Changes(j)) ==> ImageOf(j) == old(ImageOf(j))
        invariant old(AllGuarded()) && (forall k :: 0 <= k < n ==> ops[k].Sane()) ==> AllGuarded()
        invariant |trace| == n + 1 && trace[0] == old(View()) && trace[n] == View()
        invariant forall k :: 0 <= k < n ==> Step(ops[k], trace[k], trace[k + 1])
      {
        Do(ops[n]);
        trace := trace + [View()];
      }
    }
  }
}
