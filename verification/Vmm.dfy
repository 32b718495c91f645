/**
 * Address spaces: the list of areas, the page table as a map from pages to
 * frames, and the operations that map and unmap memory.
 */
module Vmm {
  import opened Common
  import opened Areas
  import opened VmaList
  import Pmm

  /** A page table entry; frames are page numbers of physical memory. */
  datatype Pte = Pte(frame: nat, flags: bv32)

  const USER_HEAP_BASE: nat := 0x1000_0000
  const USER_SPACE_END: nat := 0x8000_0000_0000

  const MAP_FIXED: bv32 := 0x10
  const MAP_ANONYMOUS: bv32 := 0x20

  function Bit(word: bv32, mask: bv32, value: bv32): bv32 { if word & mask != 0 then value else 0 }

  /** The area flags of a mapping: read, write, execute, shared, private, anonymous. */
  function AreaFlags(prot: bv32, flags: bv32): bv32
  {
    Bit(prot, 1, 1) | Bit(prot, 2, 2) | Bit(prot, 4, 4) | Bit(flags, 1, 8) | Bit(flags, 2, 16) | Bit(flags, 0x20, 0x80)
  }

  /** `vmm_prot_to_pte_flags`. */
  function PteFlags(prot: bv32): bv32 { 5 | Bit(prot, 2, 2) }

  /** Physical memory: the contents of each frame. */
  class Ram {
    var page: map<nat, Bytes>

    constructor ()
      ensures page == map[]
    {
      page := map[];
    }
  }

  const VMA_WRITE: bv32 := 2
  const PTE_WRITABLE: bv32 := 2
  const PTE_COW: bv32 := 0x200

  /** The error code of a fault says that it was a write, and the area does not allow writing. */
  predicate Forbidden(code: bv32, flags: bv32) { code & 2 != 0 && flags & VMA_WRITE == 0 }

  /** What the flags of a page let a user program do: read it, and write it exactly if the protection says so. */
  ghost predicate Allows(flags: bv32, prot: bv32)
  {
    flags & 1 != 0 && flags & 4 != 0 && (flags & 2 != 0 <==> prot & 2 != 0) && flags & !7 == 0
  }

  lemma PteFlagsAllow(prot: bv32)
    ensures Allows(PteFlags(prot), prot)
  {}

  /** The area flags say for each kind of access and sharing whether it was asked for, and nothing else. */
  lemma AreaFlagsMean(prot: bv32, flags: bv32)
    ensures var f := AreaFlags(prot, flags);
      (f & 1 != 0 <==> prot & 1 != 0) && (f & 2 != 0 <==> prot & 2 != 0) && (f & 4 != 0 <==> prot & 4 != 0) &&
      (f & 8 != 0 <==> flags & 1 != 0) && (f & 16 != 0 <==> flags & 2 != 0) && (f & 0x80 != 0 <==> flags & 0x20 != 0) && f & !0x9f == 0
  {}

  /** The page begins with the data and is zero behind it. */
  ghost predicate Shows(page: Bytes, data: Bytes)
  {
    |page| >= 4096 && data <= page && (forall k :: |data| <= k < |page| ==> page[k] == 0) && (|data| <= 4096 ==> |page| == 4096)
  }

  lemma PaddedShows(data: Bytes)
    ensures Shows(Padded(data), data)
  {}

  /** A fault is served: allowed by the area, with a free frame, on an absent page or one to be copied. */
  ghost predicate Served(b: Option<Backing>, pt: map<nat, Pte>, free: set<nat>, a: nat, code: bv32, table: bool)
  {
    b.Some? && !(code & 2 != 0 && b.value.flags & 2 == 0) && free != {} && if a in pt then pt[a].flags & 0x200 != 0 else table
  }

  /** The page has come in: zeros, or a copy of what it had before. */
  ghost predicate PagedIn(pt: map<nat, Pte>, page: map<nat, Bytes>, was: map<nat, Pte>, before: map<nat, Bytes>, a: nat, prot: bv32)
  {
    a in pt && pt == was[a := pt[a]] && Allows(pt[a].flags, prot) && pt[a].frame in page &&
    if a in was then was[a].frame in before && page[pt[a].frame] == before[was[a].frame] else Shows(page[pt[a].frame], [])
  }

  /** A page read from a file, with zeros after a short read. */
  function Padded(data: Bytes): Bytes
  {
    if |data| >= PAGE_SIZE then data else data + seq(PAGE_SIZE - |data|, _ => 0)
  }

  ghost predicate In(a: nat, lo: nat, hi: nat) { lo <= a < hi }

  /** The page table without the pages of a range. */
  ghost function Without(pt: map<nat, Pte>, lo: nat, hi: nat): map<nat, Pte>
  {
    map a | a in pt && !In(a, lo, hi) :: pt[a]
  }

  ghost function Frames(pt: map<nat, Pte>): set<nat> { set a | a in pt :: pt[a].frame }

  /** Pages are aligned and every page has a frame of its own, never frame 0. */
  ghost predicate Injective(pt: map<nat, Pte>)
  {
    (forall a :: a in pt ==> a % PAGE_SIZE == 0 && pt[a].frame != 0) &&
    forall a, b :: a in pt && b in pt && pt[a].frame == pt[b].frame ==> a == b
  }

  /** The frames of the page table are used by it alone. */
  ghost predicate Exclusive(pt: map<nat, Pte>, free: set<nat>, total: nat)
  {
    Injective(pt) && Frames(pt) !! free && 0 !in free && forall f :: f in Frames(pt) ==> f < total
  }

  /** Every mapped page has contents. */
  ghost predicate Resident(pt: map<nat, Pte>, page: map<nat, Bytes>)
  {
    forall a :: a in pt ==> pt[a].frame in page
  }

  /** The pages of a range. */
  ghost function Within(pt: map<nat, Pte>, lo: nat, hi: nat): map<nat, Pte>
  {
    map a | a in pt && In(a, lo, hi) :: pt[a]
  }

  lemma FramesRemove(pt: map<nat, Pte>, a: nat)
    requires a in pt
    ensures Frames(pt) == Frames(pt - {a}) + {pt[a].frame}
    ensures Injective(pt) ==> Injective(pt - {a}) && pt[a].frame !in Frames(pt - {a})
  {
    forall f | f in Frames(pt)
      ensures f in Frames(pt - {a}) + {pt[a].frame}
    {
      var b :| b in pt && pt[b].frame == f;
      assert b != a ==> b in pt - {a} && (pt - {a})[b].frame == f;
    }
  }

  lemma FramesAdd(pt: map<nat, Pte>, a: nat, e: Pte)
    requires a !in pt
    ensures Frames(pt[a := e]) == Frames(pt) + {e.frame}
    ensures Injective(pt) && a % PAGE_SIZE == 0 && e.frame != 0 && e.frame !in Frames(pt) ==> Injective(pt[a := e])
  {
    var q := pt[a := e];
    assert q[a].frame == e.frame;
    assert forall b :: b in pt ==> b in q && q[b].frame == pt[b].frame;
  }

  /** A page moves to a free frame; its old frame is lost. */
  lemma ReplaceFrame(pt: map<nat, Pte>, a: nat, e: Pte, free: set<nat>, total: nat)
    requires Exclusive(pt, free, total) && a in pt && e.frame in free && e.frame < total
    ensures Exclusive(pt[a := e], free - {e.frame}, total) && pt[a].frame !in free
    ensures free - {e.frame} + Frames(pt[a := e]) <= free + Frames(pt) && (pt - {a})[a := e] == pt[a := e]
  {
    hide Frames, Injective;
    FramesRemove(pt, a);
    FramesAdd(pt - {a}, a, e);
    assert (pt - {a})[a := e] == pt[a := e];
    InjectiveAt(pt, a);
  }

  lemma InjectiveAt(pt: map<nat, Pte>, a: nat)
    requires Injective(pt) && a in pt
    ensures a % PAGE_SIZE == 0 && pt[a].frame in Frames(pt)
  {}

  lemma WithoutStep(pt: map<nat, Pte>, lo: nat, a: nat)
    requires Injective(pt) && lo <= a && a % PAGE_SIZE == 0
    ensures Without(pt, lo, a + PAGE_SIZE) == Without(pt, lo, a) - {a}
  {
    forall b | b in pt
      ensures In(b, lo, a + PAGE_SIZE) <==> In(b, lo, a) || b == a
    {
      if b < a + PAGE_SIZE { NextAligned(a, b); }
    }
  }

  /** Where the right half of a split area goes: next to the left half, with room. */
  lemma SplitPlace(s: seq<Area>, k: nat, lo: nat, hi: nat, left: Area, right: Area, j: nat)
    requires Sorted(s) && k < |s| && s[k].start < lo <= hi < s[k].end && lo % PAGE_SIZE == 0 && hi % PAGE_SIZE == 0
    requires left == s[k].(end := lo)
    requires right == s[k].(start := hi, offset := (s[k].offset + (hi - s[k].start)) % U64)
    ensures Sorted(s[k := left]) && Aligned(right) && Pieces(s[k], lo, hi) == [left, right]
    ensures Slot(s[k := left], right, j) ==> j == k + 1 && Room(s[k := left], right, j)
  {
    var t := s[k := left];
    assert t[k].start < right.start && (k + 1 < |t| ==> right.end <= t[k + 1].start);
  }

  lemma InsertedPieces<A>(s: seq<A>, k: nat, left: A, right: A)
    requires k < |s|
    ensures Inserted(s[k := left], k + 1, right) == s[..k] + [left, right] + s[k + 1..]
  {}

  /** The list with the area at position `k` cut. */
  ghost function CutAt(s: seq<Area>, k: nat, lo: nat, hi: nat): seq<Area>
    requires k < |s|
  {
    s[..k] + Pieces(s[k], lo, hi) + s[k + 1..]
  }

  lemma CutSorted(s: seq<Area>, k: nat, lo: nat, hi: nat)
    requires Sorted(s) && k < |s| && lo <= hi < U64 && lo % PAGE_SIZE == 0 && hi % PAGE_SIZE == 0
    ensures Sorted(CutAt(s, k, lo, hi))
  {
    PiecesSorted(s[k], lo, hi);
    SortedAppend(s[..k], Pieces(s[k], lo, hi), s[k].start);
    SortedAppend(s[..k] + Pieces(s[k], lo, hi), s[k + 1..], s[k].end);
  }

  /** What is left of an area, and of a list, when a split may lack the memory it needs. */
  ghost function Left(v: Area, lo: nat, hi: nat, split: bool): seq<Area>
  {
    if !split && v.start < lo && hi < v.end then [v] else Pieces(v, lo, hi)
  }

  ghost function LeftAt(s: seq<Area>, k: nat, lo: nat, hi: nat, split: bool): seq<Area>
    requires k < |s|
  {
    s[..k] + Left(s[k], lo, hi, split) + s[k + 1..]
  }

  /** One list from position `i` on is the other from `j` on. */
  ghost predicate TailFrom(s: seq<VmArea>, i: nat, t: seq<VmArea>, j: nat)
  {
    i <= |s| && j <= |t| && s[i..] == t[j..]
  }

  ghost function Remaining(s: seq<Area>, lo: nat, hi: nat, split: bool): seq<Area>
  {
    if s == [] then [] else Remaining(s[..|s| - 1], lo, hi, split) + Left(s[|s| - 1], lo, hi, split)
  }

  /** Without the need to split, or with the memory for it, the range is cut out exactly. */
  lemma {:induction false} RemainingIsUnmap(s: seq<Area>, lo: nat, hi: nat, split: bool)
    requires split || !Splits(s, lo, hi)
    ensures Remaining(s, lo, hi, split) == Unmap(s, lo, hi)
  {
    if s != [] {
      var t, v := s[..|s| - 1], s[|s| - 1];
      assert s == t + [v];
      RemainingIsUnmap(t, lo, hi, split);
      UnmapAppend(t, [v], lo, hi);
      assert Unmap([v], lo, hi) == Pieces(v, lo, hi);
    }
  }

  /** Areas that the range misses, or that it cannot split, stay as they are. */
  lemma {:induction false} RemainingIsSame(s: seq<Area>, lo: nat, hi: nat, split: bool)
    requires forall i :: 0 <= i < |s| ==> Left(s[i], lo, hi, split) == [s[i]]
    ensures Remaining(s, lo, hi, split) == s
  {
    if s != [] {
      var t, v := s[..|s| - 1], s[|s| - 1];
      RemainingIsSame(t, lo, hi, split);
      assert Left(v, lo, hi, split) == [v];
      assert s == t + [v];
    }
  }

  lemma {:induction false} RemainingAppend(s: seq<Area>, t: seq<Area>, lo: nat, hi: nat, split: bool)
    ensures Remaining(s + t, lo, hi, split) == Remaining(s, lo, hi, split) + Remaining(t, lo, hi, split)
  {
    if t == [] {
      assert s + t == s;
    } else {
      var t', v := t[..|t| - 1], t[|t| - 1];
      var r := s + t;
      assert r[..|r| - 1] == s + t' && r[|r| - 1] == v;
      RemainingAppend(s, t', lo, hi, split);
      Assoc(Remaining(s, lo, hi, split), Remaining(t', lo, hi, split), Left(v, lo, hi, split));
    }
  }

  lemma Assoc<A>(a: seq<A>, b: seq<A>, c: seq<A>)
    ensures a + (b + c) == a + b + c
  {}

  /** The page table without the pages of the range that lie in some area. */
  ghost function Cleared(pt: map<nat, Pte>, s: seq<Area>, lo: nat, hi: nat): map<nat, Pte>
  {
    map a | a in pt && !(In(a, lo, hi) && Mapped(s, a)) :: pt[a]
  }

  lemma ClearedStep(pt: map<nat, Pte>, s: seq<Area>, i: nat, lo: nat, hi: nat)
    requires i < |s|
    ensures Cleared(pt, s[..i + 1], lo, hi) == Without(Cleared(pt, s[..i], lo, hi), Max(s[i].start, lo), Min(s[i].end, hi))
  {
    forall a: nat | a in pt
      ensures Mapped(s[..i + 1], a) <==> Mapped(s[..i], a) || Covers(s[i], a)
    {
      MappedSnoc(s, i, a);
    }
  }

  lemma MappedSnoc(s: seq<Area>, i: nat, a: nat)
    requires i < |s|
    ensures Mapped(s[..i + 1], a) <==> Mapped(s[..i], a) || Covers(s[i], a)
  {
    var t, u := s[..i], s[..i + 1];
    if j :| 0 <= j < |t| && Covers(t[j], a) { assert Covers(u[j], a); }
    if Covers(s[i], a) { assert u[i] == s[i]; }
    if j :| 0 <= j < |u| && Covers(u[j], a) { assert j < i ==> Covers(t[j], a); }
  }

  /** One area further in the loop, on the list and on the positions of its nodes. */
  lemma RemainingStep(s: seq<Area>, i: nat, lo: nat, hi: nat, split: bool)
    requires i < |s|
    ensures var r := Remaining(s[..i], lo, hi, split);
      Remaining(s[..i + 1], lo, hi, split) == r + Left(s[i], lo, hi, split) &&
      (r + s[i..])[|r|] == s[i] &&
      LeftAt(r + s[i..], |r|, lo, hi, split) == Remaining(s[..i + 1], lo, hi, split) + s[i + 1..]
  {
    var r := Remaining(s[..i], lo, hi, split);
    assert s[..i + 1][..i] == s[..i];
    var t := r + s[i..];
    assert t[..|r|] == r && t[|r| + 1..] == s[i + 1..];
  }

  lemma RemainingSkip(s: seq<Area>, i: nat, lo: nat, hi: nat, split: bool)
    requires i < |s| && !Meets(s[i], lo, hi)
    ensures Remaining(s[..i + 1], lo, hi, split) + s[i + 1..] == Remaining(s[..i], lo, hi, split) + s[i..]
    ensures |Remaining(s[..i + 1], lo, hi, split)| == |Remaining(s[..i], lo, hi, split)| + 1
  {
    hide Remaining, Left;
    RemainingStep(s, i, lo, hi, split);
    LeftWhole(s[i], lo, hi, split);
    assert s[i..] == [s[i]] + s[i + 1..];
    Assoc(Remaining(s[..i], lo, hi, split), [s[i]], s[i + 1..]);
  }

  lemma LeftWhole(v: Area, lo: nat, hi: nat, split: bool)
    requires !Meets(v, lo, hi)
    ensures Left(v, lo, hi, split) == [v]
  {
  }

  lemma TailStep(a: seq<VmArea>, i: nat, b: seq<VmArea>, j: nat, c: seq<VmArea>, k: nat)
    requires TailFrom(a, i, b, j) && j < |b|
    ensures i < |a| && a[i] == b[j] && TailFrom(a, i + 1, b, j + 1)
    ensures TailFrom(c, k, a, i + 1) ==> TailFrom(c, k, b, j + 1)
  {
    assert a[i..][0] == b[j..][0];
    assert a[i..][1..] == a[i + 1..] && b[j..][1..] == b[j + 1..];
  }

  /** Where the loop stops nothing further meets the range. */
  lemma UnmapEnds(s: seq<Area>, i: nat, lo: nat, hi: nat, split: bool, pt: map<nat, Pte>)
    requires Sorted(s) && lo <= hi && i <= |s| && (i < |s| ==> s[i].start >= hi)
    ensures Remaining(s[..i], lo, hi, split) + s[i..] == Remaining(s, lo, hi, split)
    ensures Cleared(pt, s[..i], lo, hi) == Cleared(pt, s, lo, hi)
  {
    hide Remaining, Cleared;
    var t, u := s[..i], s[i..];
    assert s == t + u;
    RemainingAppend(t, u, lo, hi, split);
    RemainingIsSame(u, lo, hi, split);
    ClearedEnds(s, i, lo, hi, pt);
  }

  lemma ClearedEnds(s: seq<Area>, i: nat, lo: nat, hi: nat, pt: map<nat, Pte>)
    requires Sorted(s) && i <= |s| && (i < |s| ==> s[i].start >= hi)
    ensures Cleared(pt, s[..i], lo, hi) == Cleared(pt, s, lo, hi)
  {
    var t := s[..i];
    forall a | a in pt && In(a, lo, hi)
      ensures Mapped(t, a) <==> Mapped(s, a)
    {
      if j :| 0 <= j < |s| && Covers(s[j], a) { assert j < i && Covers(t[j], a); }
      if j :| 0 <= j < |t| && Covers(t[j], a) { assert Covers(s[j], a); }
    }
  }

  lemma RemainingIsAfter(s: seq<Area>, lo: nat, hi: nat, split: bool)
    requires Sorted(s) && lo <= hi < U64
    ensures Remaining(s, lo, hi, split) == AfterUnmap(s, lo, hi, split)
  {
    if Removable(s, lo, hi, split) {
      RemainingIsUnmap(s, lo, hi, split);
    } else {
      var j :| 0 <= j < |s| && s[j].start < lo && hi < s[j].end;
      forall i | 0 <= i < |s|
        ensures Left(s[i], lo, hi, split) == [s[i]]
      {
        assert i < j ==> s[i].end <= s[j].start;
        assert j < i ==> s[j].end <= s[i].start;
      }
      RemainingIsSame(s, lo, hi, split);
    }
  }

  lemma RemainingNothing(s: seq<Area>, split: bool, pt: map<nat, Pte>)
    ensures Remaining(s, 0, 0, split) == s && Cleared(pt, s, 0, 0) == pt
  {
    RemainingIsSame(s, 0, 0, split);
  }

  /** The page range of an unmapping, and what it comes to when its end wraps to zero. */
  lemma UnmapWindow(s: seq<Area>, pt: map<nat, Pte>, addr: nat, length: nat, split: bool)
    requires Sorted(s) && addr + length < U64
    ensures var lo, hi, end := PageDown(addr), PageUp(addr + length), PageEnd(addr + length);
      lo % PAGE_SIZE == 0 && hi % PAGE_SIZE == 0 && hi < U64 && (lo <= hi || hi == 0) &&
      (lo <= hi ==> Remaining(s, lo, hi, split) == AfterUnmap(s, lo, end, split)) &&
      (hi < lo ==> AfterUnmap(s, lo, end, split) == s && end >= U64) &&
      (end < U64 ==> hi == end) && (end >= U64 && lo <= hi ==> Cleared(pt, s, lo, hi) == pt)
  {
    hide Remaining, Cleared;
    PageUpWraps(addr);
    PageUpWraps(addr + length);
    if PageDown(addr) <= PageUp(addr + length) {
      RemainingIsAfter(s, PageDown(addr), PageUp(addr + length), split);
      RemainingNothing(s, split, pt);
    }
  }

  /** A range of whole pages, whose end may have wrapped to zero. */
  predicate PageRange(lo: nat, hi: nat)
  {
    (lo <= hi || hi == 0) && hi < U64 && lo % PAGE_SIZE == 0 && hi % PAGE_SIZE == 0
  }

  function Max(a: nat, b: nat): nat { if a > b then a else b }

  function Min(a: nat, b: nat): nat { if a < b then a else b }

  lemma WithoutNothing(pt: map<nat, Pte>, lo: nat, hi: nat)
    requires hi <= lo
    ensures Without(pt, lo, hi) == pt
  {}

  lemma DeletedTail<A>(s: seq<A>, k: nat)
    requires k < |s|
    ensures Deleted(s, k) == s[..k] + [] + s[k + 1..] && Deleted(s, k)[k..] == s[k + 1..]
  {}

  class AddressSpace {
    const list: List
    var pt: map<nat, Pte>

    /** `vmm_create_address_space`. */
    constructor ()
      ensures Valid() && list.contents == [] && pt == map[] && fresh(list) && list.repr == {}
    {
      list := new List();
      pt := map[];
    }

    ghost predicate Valid()
      reads this, list, list.repr
    {
      list.Valid() && Sorted(list.contents)
    }

    /** Unmaps one mapped page and frees its frame. */
    method UnmapPage(addr: nat, mem: Pmm.PhysMem)
      requires mem.Valid() && Exclusive(pt, mem.Free(), mem.total) && addr in pt
      modifies this`pt, mem, mem.bitmap
      ensures mem.Valid() && Exclusive(pt, mem.Free(), mem.total) && pt == old(pt) - {addr}
      ensures mem.Free() + Frames(pt) == old(mem.Free() + Frames(pt))
    {
      FramesRemove(pt, addr);
      var frame := pt[addr].frame;
      pt := pt - {addr};
      mem.FreePage(frame * PAGE_SIZE);
    }

    /** The page loop of an unmapping: resolved pages are unmapped and their frames freed. */
    method UnmapPages(lo: nat, hi: nat, mem: Pmm.PhysMem)
      requires mem.Valid() && Exclusive(pt, mem.Free(), mem.total) && lo % PAGE_SIZE == 0 && hi % PAGE_SIZE == 0
      modifies this`pt, mem, mem.bitmap
      ensures mem.Valid() && Exclusive(pt, mem.Free(), mem.total)
      ensures pt == Without(old(pt), lo, hi)
      ensures mem.Free() + Frames(pt) == old(mem.Free() + Frames(pt))
    {
      var addr := lo;
      while addr < hi
        invariant lo <= addr && addr % PAGE_SIZE == 0 && (addr <= hi || addr == lo)
        invariant mem.Valid() && Exclusive(pt, mem.Free(), mem.total)
        invariant pt == Without(old(pt), lo, addr)
        invariant mem.Free() + Frames(pt) == old(mem.Free() + Frames(pt))
      {
        WithoutStep(old(pt), lo, addr);
        if addr in pt {
          UnmapPage(addr, mem);
        }
        addr := addr + PAGE_SIZE;
      }
    }

    /** Puts the right half of a split area back into the list. */
    method PlaceRight(rest: VmArea, ghost k: nat, ghost s: seq<Area>, ghost lo: nat, ghost hi: nat)
      requires Valid() && rest !in list.repr && Sorted(s) && k < |s| && s[k].start < lo <= hi < s[k].end
      requires lo % PAGE_SIZE == 0 && hi % PAGE_SIZE == 0
      requires list.contents == s[k := s[k].(end := lo)]
      requires rest.area == s[k].(start := hi, offset := (s[k].offset + (hi - s[k].start)) % U64)
      modifies list, list.repr, rest
      ensures Valid() && list.repr == old(list.repr) + {rest} && list.nodes == Inserted(old(list.nodes), k + 1, rest)
      ensures list.contents == CutAt(s, k, lo, hi)
    {
      ghost var left, right := s[k].(end := lo), rest.area;
      SplitPlace(s, k, lo, hi, left, right, 0);
      var ok;
      ghost var j;
      ok, j := list.Insert(rest);
      SplitPlace(s, k, lo, hi, left, right, j);
      InsertedPieces(s, k, left, right);
    }

    /** The split of an area that reaches beyond both ends of the range. */
    method Split(v: VmArea, ghost k: nat, lo: nat, hi: nat)
      requires Valid() && k < |list.nodes| && list.nodes[k] == v && v.area.start < lo <= hi < v.area.end
      requires lo % PAGE_SIZE == 0 && hi % PAGE_SIZE == 0
      modifies list, list.repr
      ensures Valid() && fresh(list.repr - old(list.repr))
      ensures list.contents == CutAt(old(list.contents), k, lo, hi)
      ensures list.nodes[k + 2..] == old(list.nodes)[k + 1..]
    {
      ghost var s, nodes := list.contents, list.nodes;
      var rest := new VmArea(v.area.(start := hi, offset := (v.area.offset + (hi - v.area.start)) % U64));
      SplitPlace(s, k, lo, hi, v.area.(end := lo), rest.area, 0);
      list.Set(v, v.area.(end := lo), k);
      PlaceRight(rest, k, s, lo, hi);
      InsertedTail(nodes, k + 1, rest);
    }

    /** An area that vanishes, and one of which one piece is left. */
    method Vanish(v: VmArea, ghost k: nat, ghost lo: nat, ghost hi: nat)
      requires Valid() && k < |list.nodes| && list.nodes[k] == v && Pieces(v.area, lo, hi) == []
      requires Sorted(CutAt(list.contents, k, lo, hi))
      modifies list, list.repr
      ensures Valid() && list.repr == old(list.repr) && list.contents == CutAt(old(list.contents), k, lo, hi)
      ensures k <= |list.nodes| && list.nodes[k..] == old(list.nodes)[k + 1..]
    {
      ghost var s, nodes := list.contents, list.nodes;
      DeletedTail(s, k);
      DeletedTail(nodes, k);
      list.Remove(v, k);
    }

    method Trim(v: VmArea, ghost k: nat, ghost lo: nat, ghost hi: nat, area: Area)
      requires Valid() && k < |list.nodes| && list.nodes[k] == v && Pieces(v.area, lo, hi) == [area]
      requires Sorted(CutAt(list.contents, k, lo, hi))
      modifies list, list.repr
      ensures Valid() && list.repr == old(list.repr) && list.contents == CutAt(old(list.contents), k, lo, hi)
      ensures list.nodes == old(list.nodes)
    {
      ghost var s := list.contents;
      list.Set(v, area, k);
      assert s[k := area] == s[..k] + [area] + s[k + 1..];
    }

    /** Cuts the range out of one area that it meets. */
    method CutArea(v: VmArea, ghost k: nat, lo: nat, hi: nat, splitMemory: bool)
      requires Valid() && k < |list.nodes| && list.nodes[k] == v && v.area.start < hi && v.area.end > lo
      requires lo <= hi < U64 && lo % PAGE_SIZE == 0 && hi % PAGE_SIZE == 0
      modifies list, list.repr
      ensures Valid() && fresh(list.repr - old(list.repr))
      ensures list.contents == LeftAt(old(list.contents), k, lo, hi, splitMemory)
      ensures TailFrom(list.nodes, k + |Left(old(v.area), lo, hi, splitMemory)|, old(list.nodes), k + 1)
    {
      hide NextLinks, PrevLinks;
      ghost var s := list.contents;
      assert s == s[..k] + [s[k]] + s[k + 1..];
      CutSorted(s, k, lo, hi);
      if v.area.start >= lo && v.area.end <= hi {
        Vanish(v, k, lo, hi);
      } else if v.area.start < lo && v.area.end > hi {
        if splitMemory {
          Split(v, k, lo, hi);
        }
      } else if v.area.start < lo {
        Trim(v, k, lo, hi, v.area.(end := lo));
      } else {
        Trim(v, k, lo, hi, v.area.(start := hi, offset := (v.area.offset + (hi - v.area.start)) % U64));
      }
    }

    /** One round of the unmapping loop: the pages of the overlap, then the area. */
    method UnmapArea(v: VmArea, ghost k: nat, lo: nat, hi: nat, split: bool, mem: Pmm.PhysMem)
      requires Valid() && k < |list.nodes| && list.nodes[k] == v && v.area.start < hi && v.area.end > lo
      requires lo <= hi < U64 && lo % PAGE_SIZE == 0 && hi % PAGE_SIZE == 0
      requires mem.Valid() && Exclusive(pt, mem.Free(), mem.total)
      modifies this`pt, list, list.repr, mem, mem.bitmap
      ensures Valid() && fresh(list.repr - old(list.repr))
      ensures list.contents == LeftAt(old(list.contents), k, lo, hi, split)
      ensures TailFrom(list.nodes, k + |Left(old(v.area), lo, hi, split)|, old(list.nodes), k + 1)
      ensures pt == Without(old(pt), Max(old(v.area).start, lo), Min(old(v.area).end, hi))
      ensures mem.Valid() && Exclusive(pt, mem.Free(), mem.total)
      ensures mem.Free() + Frames(pt) == old(mem.Free() + Frames(pt))
    {
      hide Pmm.PhysMem.Valid, Pmm.PhysMem.Free, Injective, Exclusive, Frames, Left, LeftAt, NextLinks, PrevLinks, Without, TailFrom;
      UnmapPages(Max(v.area.start, lo), Min(v.area.end, hi), mem);
      CutArea(v, k, lo, hi, split);
    }

    /** The unmapping loop has dealt with the first `i` areas of `s`. */
    ghost predicate Unmapping(s: seq<Area>, nodes: seq<VmArea>, i: nat, lo: nat, hi: nat, split: bool, before: map<nat, Pte>)
      reads this, list, list.repr
    {
      Valid() && i <= |s| == |nodes| && list.contents == Remaining(s[..i], lo, hi, split) + s[i..] &&
      TailFrom(list.nodes, |Remaining(s[..i], lo, hi, split)|, nodes, i) && pt == Cleared(before, s[..i], lo, hi)
    }

    method UnmapStep(v: VmArea, ghost s: seq<Area>, ghost nodes: seq<VmArea>, ghost i: nat,
                     lo: nat, hi: nat, split: bool, mem: Pmm.PhysMem, ghost before: map<nat, Pte>)
      requires Unmapping(s, nodes, i, lo, hi, split, before) && i < |s| && nodes[i] == v && v.area.start < hi
      requires lo <= hi < U64 && lo % PAGE_SIZE == 0 && hi % PAGE_SIZE == 0
      requires mem.Valid() && Exclusive(pt, mem.Free(), mem.total)
      modifies this`pt, list, list.repr, mem, mem.bitmap
      ensures Unmapping(s, nodes, i + 1, lo, hi, split, before) && fresh(list.repr - old(list.repr))
      ensures mem.Valid() && Exclusive(pt, mem.Free(), mem.total)
      ensures mem.Free() + Frames(pt) == old(mem.Free() + Frames(pt))
    {
      hide Pmm.PhysMem.Valid, Pmm.PhysMem.Free, Exclusive, Cleared, Without, Frames, Remaining, Left, LeftAt, Sorted, Valid, List.Valid, TailFrom;
      NextNode(s, nodes, i, lo, hi, split, before);
      ghost var k, was := |Remaining(s[..i], lo, hi, split)|, list.nodes;
      RemainingStep(s, i, lo, hi, split);
      ClearedStep(before, s, i, lo, hi);
      TailStep(was, k, nodes, i, [], 0);
      if v.area.end > lo {
        UnmapArea(v, k, lo, hi, split, mem);
        TailStep(was, k, nodes, i, list.nodes, k + |Left(s[i], lo, hi, split)|);
      } else {
        RemainingSkip(s, i, lo, hi, split);
        WithoutNothing(pt, Max(s[i].start, lo), Min(s[i].end, hi));
      }
    }

    lemma UnmapStarts(lo: nat, hi: nat, split: bool)
      requires Valid()
      ensures Unmapping(list.contents, list.nodes, 0, lo, hi, split, pt)
    {
      assert list.contents == [] + list.contents;
    }

    lemma NextNode(s: seq<Area>, nodes: seq<VmArea>, i: nat, lo: nat, hi: nat, split: bool, before: map<nat, Pte>)
      requires Unmapping(s, nodes, i, lo, hi, split, before) && i < |s|
      ensures nodes[i] in list.repr && nodes[i].next == At(nodes, i + 1) && nodes[i].area == s[i]
    {
      var r := Remaining(s[..i], lo, hi, split);
      TailStep(list.nodes, |r|, nodes, i, [], 0);
      assert list.contents[|r|] == s[i];
      if i + 1 < |nodes| { TailStep(list.nodes, |r| + 1, nodes, i + 1, [], 0); }
    }

    /** What the loop has done in the end. */
    lemma Done(s: seq<Area>, nodes: seq<VmArea>, i: nat, lo: nat, hi: nat, split: bool, before: map<nat, Pte>)
      requires Unmapping(s, nodes, i, lo, hi, split, before) && Sorted(s) && (i < |s| ==> s[i].start >= hi)
      ensures Valid()
      ensures lo <= hi ==> list.contents == Remaining(s, lo, hi, split) && pt == Cleared(before, s, lo, hi)
      ensures i == 0 ==> list.contents == s && pt == before
    {
      hide Remaining, Cleared;
      if lo <= hi { UnmapEnds(s, i, lo, hi, split, before); }
      if i == 0 {
        assert s[..0] == [] && s[0..] == s;
        NothingDone(lo, hi, split, before, s);
      }
    }

    lemma NothingDone(lo: nat, hi: nat, split: bool, before: map<nat, Pte>, s: seq<Area>)
      ensures Remaining([], lo, hi, split) + s == s && Cleared(before, [], lo, hi) == before
    {
    }

    /** The page table owns its frames, which are all frames but the free ones. */
    ghost predicate Backed(mem: Pmm.PhysMem, all: set<nat>)
      reads this`pt, mem, mem.bitmap
    {
      mem.Valid() && Exclusive(pt, mem.Free(), mem.total) && mem.Free() + Frames(pt) == all
    }

    ghost predicate Looping(s: seq<Area>, nodes: seq<VmArea>, i: nat, lo: nat, hi: nat, split: bool, before: map<nat, Pte>,
                            mem: Pmm.PhysMem, all: set<nat>)
      reads this, list, list.repr, mem, mem.bitmap
    {
      Unmapping(s, nodes, i, lo, hi, split, before) && Backed(mem, all)
    }

    /** One round of the loop, up to the next node; none when nothing further meets the range. */
    method UnmapNext(v: VmArea, ghost s: seq<Area>, ghost nodes: seq<VmArea>, ghost i: nat,
                     lo: nat, hi: nat, split: bool, mem: Pmm.PhysMem, ghost before: map<nat, Pte>, ghost all: set<nat>)
      returns (next: Option<VmArea?>)
      requires Looping(s, nodes, i, lo, hi, split, before, mem, all) && i < |s| == |nodes| && nodes[i] == v && PageRange(lo, hi)
      modifies this`pt, list, list.repr, mem, mem.bitmap
      ensures Looping(s, nodes, if next.None? then i else i + 1, lo, hi, split, before, mem, all)
      ensures fresh(list.repr - old(list.repr)) && (next.None? <==> s[i].start >= hi)
      ensures next.Some? ==> next.value == At(nodes, i + 1) && lo <= hi
    {
      hide Pmm.PhysMem.Valid, Pmm.PhysMem.Free, Exclusive, Frames, Valid, Unmapping;
      assert Backed(mem, all);
      NextNode(s, nodes, i, lo, hi, split, before);
      var following := v.next;
      if v.area.start >= hi {
        return None;
      }
      UnmapStep(v, s, nodes, i, lo, hi, split, mem, before);
      next := Some(following);
    }

    /** The unmapping loop over the list. */
    method UnmapLoop(lo: nat, hi: nat, split: bool, mem: Pmm.PhysMem, ghost all: set<nat>) returns (ghost i: nat)
      requires Looping(list.contents, list.nodes, 0, lo, hi, split, pt, mem, all) && PageRange(lo, hi)
      requires list.head == At(list.nodes, 0) && |list.contents| == |list.nodes|
      modifies this`pt, list, list.repr, mem, mem.bitmap
      ensures Looping(old(list.contents), old(list.nodes), i, lo, hi, split, old(pt), mem, all)
      ensures (i < |old(list.contents)| ==> old(list.contents)[i].start >= hi) && (hi < lo ==> i == 0)
      ensures fresh(list.repr - old(list.repr))
    {
      hide Looping, PageRange;
      ghost var s, nodes, before := list.contents, list.nodes, pt;
      var v := list.head;
      i := 0;
      while v != null
        invariant Looping(s, nodes, i, lo, hi, split, before, mem, all) && v == At(nodes, i) && i <= |s|
        invariant fresh(list.repr - old(list.repr)) && (hi < lo ==> i == 0)
        decreases |s| - i
      {
        ghost var mid := list.repr;
        var next := UnmapNext(v, s, nodes, i, lo, hi, split, mem, before, all);
        assert list.repr - old(list.repr) <= (list.repr - mid) + (mid - old(list.repr));
        if next.None? {
          break;
        }
        v, i := next.value, i + 1;
      }
    }

    /** The unmapping of a page range. */
    method UnmapRange(lo: nat, hi: nat, split: bool, mem: Pmm.PhysMem)
      requires Valid() && (lo <= hi || hi == 0) && hi < U64 && lo % PAGE_SIZE == 0 && hi % PAGE_SIZE == 0
      requires mem.Valid() && Exclusive(pt, mem.Free(), mem.total)
      modifies this`pt, list, list.repr, mem, mem.bitmap
      ensures Valid() && fresh(list.repr - old(list.repr))
      ensures mem.Valid() && Exclusive(pt, mem.Free(), mem.total)
      ensures mem.Free() + Frames(pt) == old(mem.Free() + Frames(pt))
      ensures lo <= hi ==> list.contents == Remaining(old(list.contents), lo, hi, split)
      ensures lo <= hi ==> pt == Cleared(old(pt), old(list.contents), lo, hi)
      ensures hi < lo ==> list.contents == old(list.contents) && pt == old(pt)
    {
      hide Pmm.PhysMem.Valid, Pmm.PhysMem.Free, Exclusive, Frames, Valid, Unmapping, Cleared, Remaining, Sorted, List.Valid;
      ghost var s, nodes, before := list.contents, list.nodes, pt;
      StartsAtHead();
      UnmapStarts(lo, hi, split);
      ghost var i := UnmapLoop(lo, hi, split, mem, mem.Free() + Frames(pt));
      Done(s, nodes, i, lo, hi, split, before);
    }

    lemma StartsAtHead()
      requires Valid()
      ensures list.head == At(list.nodes, 0) && Sorted(list.contents) && |list.contents| == |list.nodes|
    {}

    lemma NodeAt(i: nat)
      requires Valid() && i < |list.nodes|
      ensures |list.contents| == |list.nodes| && list.nodes[i] in list.repr
      ensures list.nodes[i].next == At(list.nodes, i + 1) && list.nodes[i].area == list.contents[i]
    {}

    /** `vmm_munmap`. */
    method Munmap(addr: nat, length: nat, split: bool, mem: Pmm.PhysMem) returns (err: int)
      requires Valid() && addr < U64 && length < U64
      requires mem.Valid() && Exclusive(pt, mem.Free(), mem.total)
      modifies this`pt, list, list.repr, mem, mem.bitmap
      ensures Valid() && fresh(list.repr - old(list.repr))
      ensures mem.Valid() && Exclusive(pt, mem.Free(), mem.total)
      ensures mem.Free() + Frames(pt) == old(mem.Free() + Frames(pt))
      ensures err == if addr + length < U64 then 0 else -22
      ensures err != 0 ==> list.contents == old(list.contents) && pt == old(pt)
      ensures err == 0 ==> list.contents == AfterUnmap(old(list.contents), PageDown(addr), PageEnd(addr + length), split)
      ensures err == 0 && PageEnd(addr + length) < U64 ==>
        pt == Cleared(old(pt), old(list.contents), PageDown(addr), PageEnd(addr + length))
      ensures err == 0 && PageEnd(addr + length) >= U64 ==> pt == old(pt)
    {
      hide Pmm.PhysMem.Valid, Pmm.PhysMem.Free, Exclusive, Frames, Sorted, Describes, NextLinks, PrevLinks, Cleared, AfterUnmap, Remaining,
        PageDown, PageUp, PageEnd;
      if addr + length >= U64 {
        return -22;
      }
      UnmapWindow(list.contents, pt, addr, length, split);
      UnmapRange(PageDown(addr), PageUp(addr + length), split, mem);
      err := 0;
    }

    /** The search loop for a gap: the lowest place in user space where `length` bytes fit. */
    method FindGap(length: nat) returns (start: Option<nat>)
      requires Valid() && length < U64
      ensures start.Some? ==> Fits(list.contents, start.value, length) && start.value % PAGE_SIZE == 0
      ensures start.Some? ==> forall b: nat :: b < start.value ==> !Fits(list.contents, b, length)
      ensures start.None? ==> forall b: nat :: !Fits(list.contents, b, length)
    {
      hide NextLinks, PrevLinks, PageUp, PageEnd, PageDown;
      var at := USER_HEAP_BASE;
      while true
        invariant at % PAGE_SIZE == 0 && USER_HEAP_BASE <= at < U64
        invariant forall b: nat :: b < at ==> !Fits(list.contents, b, length)
        decreases U64 - at
      {
        if at + length > USER_SPACE_END {
          return None;
        }
        var v;
        ghost var i;
        v, i := list.FindIntersection(at, at + length);
        if v == null {
          return Some(at);
        }
        NoFitBelow(list.contents, i, at, length);
        PageAligned(v.area.end);
        at := PageUp(v.area.end);
      }
    }

    /** Creates an area and puts it into the list. */
    method AddArea(area: Area, memory: bool) returns (ok: bool)
      requires Valid() && Aligned(area)
      modifies list, list.repr
      ensures Valid() && fresh(list.repr - old(list.repr))
      ensures !ok ==> list.contents == old(list.contents)
      ensures ok ==> Overrides(list.contents, old(list.contents), area) && area in list.contents
      ensures ok ==> (Solid(list.contents) <==> Solid(old(list.contents)) && area.start < area.end)
      ensures ok <==> memory && !Blocked(old(list.contents), area)
    {
      hide NextLinks, PrevLinks, Describes, Lookup, Blocked;
      if !memory {
        return false;
      }
      ghost var s := list.contents;
      var v := new VmArea(area);
      ghost var k;
      ok, k := list.Insert(v);
      if ok {
        assert list.contents[k] == area;
        SolidInserted(s, k, area);
        forall a: nat
          ensures Lookup(list.contents, a) == if Covers(area, a) then Some(BackingAt(area, a)) else Lookup(s, a)
        {
          InsertLookup(s, k, area, a);
        }
      }
    }

    /** Maps a fresh zeroed frame; `table` says whether the page tables have memory. */
    method MapFresh(a: nat, flags: bv32, table: bool, mem: Pmm.PhysMem, ram: Ram) returns (ok: bool)
      requires mem.Valid() && Exclusive(pt, mem.Free(), mem.total) && a % PAGE_SIZE == 0
      modifies this`pt, mem, mem.bitmap, ram
      ensures mem.Valid() && Exclusive(pt, mem.Free(), mem.total)
      ensures mem.Free() + Frames(pt) == old(mem.Free() + Frames(pt))
      ensures ok ==> a !in old(pt) && a in pt && pt == old(pt)[a := pt[a]] && pt[a].flags == flags
      ensures ok ==> pt[a].frame in old(mem.Free()) && ram.page == old(ram.page)[pt[a].frame := Padded([])]
      ensures !ok ==> pt == old(pt)
      ensures ok <==> old(mem.Free()) != {} && a !in old(pt) && table
      ensures ok ==> mem.Free() == old(mem.Free()) - {pt[a].frame}
      ensures Kept(ram.page, old(ram.page), old(mem.Free())) && mem.Free() <= old(mem.Free())
      ensures Resident(old(pt), old(ram.page)) ==> Resident(pt, ram.page)
    {
      hide Pmm.PhysMem.Valid, Frames, Injective;
      var phys := mem.AllocPage();
      if phys == 0 { return false; }
      var frame := phys / PAGE_SIZE;
      ram.page := ram.page[frame := Padded([])];
      if a in pt || !table {
        mem.FreePage(phys);
        return false;
      }
      FramesAdd(pt, a, Pte(frame, flags));
      pt := pt[a := Pte(frame, flags)];
      ok := true;
    }

    /** The copy of a page that is marked for copy-on-write; its old frame is not given back. */
    method CopyFault(a: nat, flags: bv32, mem: Pmm.PhysMem, ram: Ram) returns (ok: bool)
      requires mem.Valid() && Exclusive(pt, mem.Free(), mem.total) && a in pt && Resident(pt, ram.page)
      modifies this`pt, mem, mem.bitmap, ram
      ensures mem.Valid() && Exclusive(pt, mem.Free(), mem.total) && Resident(pt, ram.page)
      ensures mem.Free() + Frames(pt) <= old(mem.Free() + Frames(pt))
      ensures Kept(ram.page, old(ram.page), old(mem.Free()))
      ensures ok <==> old(mem.Free()) != {}
      ensures !ok ==> pt == old(pt)
      ensures ok ==> a in pt && pt == old(pt)[a := pt[a]] && pt[a].flags == flags && pt[a].frame in old(mem.Free())
      ensures ok ==> ram.page[pt[a].frame] == old(ram.page[pt[a].frame])
    {
      hide Pmm.PhysMem.Valid, Frames, Injective;
      KeptStart(ram.page, mem.Free());
      var phys := mem.AllocPage();
      if phys == 0 { return false; }
      var frame := phys / PAGE_SIZE;
      ReplaceFrame(pt, a, Pte(frame, flags), old(mem.Free()), mem.total);
      ram.page := ram.page[frame := ram.page[pt[a].frame]];
      pt := pt - {a};
      pt := pt[a := Pte(frame, flags)];
      ok := true;
    }

    /** `vmm_handle_page_fault`. */
    method Fault(addr: nat, code: bv32, table: bool, mem: Pmm.PhysMem, ram: Ram) returns (err: int)
      requires Valid() && mem.Valid() && Exclusive(pt, mem.Free(), mem.total) && Resident(pt, ram.page)
      modifies this`pt, mem, mem.bitmap, ram
      ensures mem.Valid() && Exclusive(pt, mem.Free(), mem.total) && Resident(pt, ram.page)
      ensures mem.Free() + Frames(pt) <= old(mem.Free() + Frames(pt))
      ensures Kept(ram.page, old(ram.page), old(mem.Free()))
      ensures PageDown(addr) !in old(pt) ==> mem.Free() + Frames(pt) == old(mem.Free() + Frames(pt))
      ensures Lookup(list.contents, addr).None? ==> err == -14
      ensures Lookup(list.contents, addr).Some? ==> (err == -13 <==> code & 2 != 0 && Lookup(list.contents, addr).value.flags & 2 == 0)
      ensures err == 0 <==> Served(Lookup(list.contents, addr), old(pt), old(mem.Free()), PageDown(addr), code, table)
      ensures err == 0 ==> PagedIn(pt, ram.page, old(pt), old(ram.page), PageDown(addr), Lookup(list.contents, addr).value.prot)
      ensures err != 0 ==> pt == old(pt)
    {
      hide Pmm.PhysMem.Valid, Pmm.PhysMem.Free, Exclusive, Frames, NextLinks, PrevLinks, Distinct, Describes, Lookup, Kept, Padded, PteFlags,
           Sorted;
      hide Allows, Shows;
      KeptStart(ram.page, mem.Free());
      var v;
      ghost var i;
      v, i := list.Find(addr);
      if v == null {
        return -14;
      }
      if Forbidden(code, v.area.flags) {
        return -13;
      }
      var a := PageDown(addr);
      PteFlagsAllow(v.area.prot);
      PaddedShows([]);
      if a in pt && pt[a].flags & PTE_COW != 0 {
        var copied := CopyFault(a, PteFlags(v.area.prot), mem, ram);
        return if copied then 0 else -12;
      }
      var ok := MapFresh(a, PteFlags(v.area.prot), table, mem, ram);
      err := if ok then 0 else if a in pt then -17 else -12;
    }

    /** Maps one page of a file; `data` is what the file system reads, if it can. */
    method PopulatePage(a: nat, flags: bv32, table: bool, data: Option<Bytes>, mem: Pmm.PhysMem, ram: Ram) returns (ok: bool)
      requires mem.Valid() && Exclusive(pt, mem.Free(), mem.total) && a % PAGE_SIZE == 0
      modifies this`pt, mem, mem.bitmap, ram
      ensures mem.Valid() && Exclusive(pt, mem.Free(), mem.total)
      ensures mem.Free() + Frames(pt) == old(mem.Free() + Frames(pt))
      ensures pt == old(pt) || (a !in old(pt) && a in pt && pt == old(pt)[a := pt[a]])
      ensures ok ==> a !in old(pt) && a in pt && pt[a].flags == flags && pt[a].frame in old(mem.Free())
      ensures ok ==> data.Some? && ram.page == old(ram.page)[pt[a].frame := Padded(data.value)]
      ensures ok <==> old(mem.Free()) != {} && a !in old(pt) && table && data.Some?
      ensures ok ==> mem.Free() == old(mem.Free()) - {pt[a].frame}
      ensures Kept(ram.page, old(ram.page), old(mem.Free())) && mem.Free() <= old(mem.Free())
      ensures Resident(old(pt), old(ram.page)) ==> Resident(pt, ram.page)
    {
      hide Pmm.PhysMem.Valid, Frames, Exclusive, Padded;
      ok := MapFresh(a, flags, table, mem, ram);
      if !ok { return; }
      if data.None? { return false; }
      ram.page := ram.page[pt[a].frame := Padded(data.value)];
    }

    /** One round of the loop that fills a file mapping. */
    method PopulateNext(a: nat, start: nat, end: nat, flags: bv32, offset: int, tables: nat -> bool, read: int -> Option<Bytes>,
                        mem: Pmm.PhysMem, ram: Ram, ghost was: map<nat, Pte>, ghost before: map<nat, Bytes>, ghost free: set<nat>)
      returns (ok: bool)
      requires mem.Valid() && Exclusive(pt, mem.Free(), mem.total) && a % PAGE_SIZE == 0 && end % PAGE_SIZE == 0 && start <= a < end
      requires Populating(pt, ram.page, mem.Free(), was, before, free, start, a, flags, offset - start, tables, read)
      modifies this`pt, mem, mem.bitmap, ram
      ensures mem.Valid() && Exclusive(pt, mem.Free(), mem.total)
      ensures ok ==> Populating(pt, ram.page, mem.Free(), was, before, free, start, a + PAGE_SIZE, flags, offset - start, tables, read)
      ensures !ok ==> !CanFill(was, free, start, end, offset - start, tables, read)
      ensures !ok ==> Attempted(pt, ram.page, mem.Free(), was, before, free, start, end)
    {
      hide Pmm.PhysMem.Valid, Pmm.PhysMem.Free, Frames, Exclusive, Padded, Kept, Resident, CanFill, Populating, Attempted;
      ghost var pt', page', free' := pt, ram.page, mem.Free();
      ok := PopulatePage(a, flags, tables(a), read(offset + (a - start)), mem, ram);
      PopulateStep(pt', page', free', pt, ram.page, mem.Free(), was, before, free, start, a, end, flags, offset - start,
                   tables, read, mem.total, ok);
    }

    /** The loop that fills a file mapping. */
    method Populate(start: nat, end: nat, flags: bv32, offset: int, tables: nat -> bool, read: int -> Option<Bytes>,
                    mem: Pmm.PhysMem, ram: Ram) returns (ok: bool)
      requires mem.Valid() && Exclusive(pt, mem.Free(), mem.total) && start % PAGE_SIZE == 0 && end % PAGE_SIZE == 0
      modifies this`pt, mem, mem.bitmap, ram
      ensures mem.Valid() && Exclusive(pt, mem.Free(), mem.total)
      ensures Attempted(pt, ram.page, mem.Free(), old(pt), old(ram.page), old(mem.Free()), start, end)
      ensures ok ==> Filled(pt, ram.page, start, end, flags, offset - start, read)
      ensures ok <==> CanFill(old(pt), old(mem.Free()), start, end, offset - start, tables, read)
    {
      hide Pmm.PhysMem.Valid, Pmm.PhysMem.Free, Exclusive, Populating, Attempted, CanFill, Filled;
      PopulateStarts(pt, ram.page, mem.Free(), start, flags, offset - start, tables, read);
      var a := start;
      while a < end
        invariant start <= a && a % PAGE_SIZE == 0 && (a <= end || a == start)
        invariant mem.Valid() && Exclusive(pt, mem.Free(), mem.total)
        invariant Populating(pt, ram.page, mem.Free(), old(pt), old(ram.page), old(mem.Free()), start, a, flags, offset - start, tables, read)
      {
        ok := PopulateNext(a, start, end, flags, offset, tables, read, mem, ram, old(pt), old(ram.page), old(mem.Free()));
        if !ok {
          return;
        }
        a := a + PAGE_SIZE;
      }
      PopulateEnds(pt, ram.page, mem.Free(), old(pt), old(ram.page), old(mem.Free()), start, a, end, flags, offset - start, tables, read);
      ok := true;
    }

    /** `vmm_mmap` up to the choice of the place: the start of the mapping and its rounded length. */
    method ChoosePlace(addr: nat, length: nat, flags: bv32, file: nat, offset: int) returns (place: Option<(nat, nat)>)
      requires Valid() && addr < U64 && length < U64
      ensures place.Some? ==> place.value.1 == PageUp(length) && length != 0 && place.value.0 % PAGE_SIZE == 0
      ensures place.Some? ==> place.value.0 + place.value.1 <= USER_SPACE_END
      ensures place.Some? && flags & MAP_ANONYMOUS == 0 ==> file != 0
      ensures place.Some? ==> place.value.0 == Place(list.contents, addr, length, flags)
      ensures place.Some? && flags & MAP_FIXED != 0 ==> place.value.0 == addr
      ensures place.Some? && flags & MAP_FIXED == 0 ==> !Intersects(list.contents, place.value.0, place.value.0 + place.value.1)
      ensures place.Some? <==> Placeable(list.contents, addr, length, flags, file, offset)
    {
      if length == 0 {
        return None;
      }
      if flags & MAP_ANONYMOUS == 0 {
        if file == 0 || offset < 0 || offset % PAGE_SIZE != 0 {
          return None;
        }
      }
      var len := PageUp(length);
      var start;
      if flags & MAP_FIXED != 0 {
        start := addr;
        if start % PAGE_SIZE != 0 {
          return None;
        }
        start := PageDown(start);
      } else {
        var gap := FindGap(len);
        if gap.None? {
          return None;
        }
        start := gap.value;
        assert Lowest(list.contents, start, len);
      }
      if start + len > USER_SPACE_END {
        return None;
      }
      return Some((start, len));
    }

    /** Takes a mapping that could not be filled away again. */
    method Withdraw(start: nat, length: nat, split: bool, mem: Pmm.PhysMem, ghost s: seq<Area>, ghost area: Area)
      requires Valid() && start + length <= USER_SPACE_END && start % PAGE_SIZE == 0 && length % PAGE_SIZE == 0
      requires mem.Valid() && Exclusive(pt, mem.Free(), mem.total)
      requires area.start == start && area.end == start + length && area in list.contents
      requires Overrides(list.contents, s, area)
      modifies this`pt, list, list.repr, mem, mem.bitmap
      ensures Valid() && fresh(list.repr - old(list.repr))
      ensures mem.Valid() && Exclusive(pt, mem.Free(), mem.total)
      ensures mem.Free() + Frames(pt) == old(mem.Free() + Frames(pt))
      ensures Removes(list.contents, s, start, start + length) && (Solid(old(list.contents)) ==> Solid(list.contents))
      ensures pt == Without(old(pt), start, start + length)
    {
      hide Pmm.PhysMem.Valid, Pmm.PhysMem.Free, Exclusive, Frames, Describes, NextLinks, PrevLinks, Cleared, Without, PageEnd, PageDown,
           AfterUnmap, Solid;
      if Solid(list.contents) { AfterUnmapSolid(list.contents, start, start + length, split); }
      PageAligned(start);
      PageAligned(start + length);
      WithdrawExact(list.contents, s, area, split, pt);
      var err := Munmap(start, length, split, mem);
    }

    /** Fills a new file mapping, or takes it away again. */
    method Fill(area: Area, offset: int, split: bool, tables: nat -> bool, read: int -> Option<Bytes>,
                mem: Pmm.PhysMem, ram: Ram, ghost s: seq<Area>) returns (ok: bool)
      requires Valid() && Aligned(area) && area.end <= USER_SPACE_END && area in list.contents
      requires mem.Valid() && Exclusive(pt, mem.Free(), mem.total) && Overrides(list.contents, s, area)
      modifies this`pt, list, list.repr, mem, mem.bitmap, ram
      ensures Valid() && fresh(list.repr - old(list.repr))
      ensures mem.Valid() && Exclusive(pt, mem.Free(), mem.total)
      ensures mem.Free() + Frames(pt) == old(mem.Free() + Frames(pt)) && Kept(ram.page, old(ram.page), old(mem.Free()))
      ensures if ok then list.contents == old(list.contents) else Removes(list.contents, s, area.start, area.end)
      ensures Solid(old(list.contents)) ==> Solid(list.contents)
      ensures SameOutside(pt, old(pt), area.start, area.end)
      ensures ok ==> Loaded(pt, ram.page, area.start, area.end, area.prot, offset - area.start, read)
      ensures !ok ==> pt == Without(old(pt), area.start, area.end)
      ensures ok <==> CanFill(old(pt), old(mem.Free()), area.start, area.end, offset - area.start, tables, read)
      ensures Resident(old(pt), old(ram.page)) ==> Resident(pt, ram.page)
    {
      hide Pmm.PhysMem.Valid, Pmm.PhysMem.Free, Exclusive, Frames, Describes, NextLinks, PrevLinks,
           Filled, Loaded, Kept, Sorted, PteFlags, Overrides, Removes, CanFill, Solid;
      ok := Populate(area.start, area.end, PteFlags(area.prot), offset, tables, read, mem, ram);
      if ok {
        FilledLoaded(pt, ram.page, area.start, area.end, area.prot, offset - area.start, read);
      } else {
        Withdraw(area.start, area.end - area.start, split, mem, s, area);
      }
    }

    /** `vmm_mmap` once its range is clear: the area, and the pages of a file mapping. */
    method MapAt(area: Area, populate: bool, offset: int, split: bool, memory: bool,
                 tables: nat -> bool, read: int -> Option<Bytes>, mem: Pmm.PhysMem, ram: Ram) returns (ok: bool)
      requires Valid() && Aligned(area) && area.end <= USER_SPACE_END
      requires mem.Valid() && Exclusive(pt, mem.Free(), mem.total)
      modifies this`pt, list, list.repr, mem, mem.bitmap, ram
      ensures Valid() && fresh(list.repr - old(list.repr))
      ensures mem.Valid() && Exclusive(pt, mem.Free(), mem.total)
      ensures mem.Free() + Frames(pt) == old(mem.Free() + Frames(pt)) && Kept(ram.page, old(ram.page), old(mem.Free()))
      ensures ok ==> Overrides(list.contents, old(list.contents), area)
      ensures !ok ==> if populate && memory && !Blocked(old(list.contents), area)
                      then Removes(list.contents, old(list.contents), area.start, area.end) && pt == Without(old(pt), area.start, area.end)
                      else list.contents == old(list.contents) && pt == old(pt)
      ensures SameOutside(pt, old(pt), area.start, area.end)
      ensures ok && populate ==> Loaded(pt, ram.page, area.start, area.end, area.prot, offset - area.start, read)
      ensures !populate ==> pt == old(pt) && ram.page == old(ram.page)
      ensures ok <==>
        (memory && !Blocked(old(list.contents), area) &&
         (populate ==> CanFill(old(pt), old(mem.Free()), area.start, area.end, offset - area.start, tables, read)))
      ensures Solid(old(list.contents)) && area.start < area.end ==> Solid(list.contents)
      ensures Resident(old(pt), old(ram.page)) ==> Resident(pt, ram.page)
    {
      hide Pmm.PhysMem.Valid, Pmm.PhysMem.Free, Exclusive, Frames, Describes, NextLinks, PrevLinks,
           Loaded, Kept, Sorted, Blocked, Overrides, Removes, Solid, Resident, Without, CanFill;
      ghost var s := list.contents;
      KeptStart(ram.page, mem.Free());
      ok := AddArea(area, memory);
      if ok && populate {
        ghost var mid := list.repr;
        ok := Fill(area, offset, split, tables, read, mem, ram, s);
        assert list.repr - old(list.repr) <= (list.repr - mid) + (mid - old(list.repr));
      }
    }

    /** Clears the range of a fixed mapping, or makes sure that a found one is clear. */
    method ClearRange(start: nat, length: nat, fixed: bool, split: bool, mem: Pmm.PhysMem) returns (ok: bool)
      requires Valid() && start + length <= USER_SPACE_END && start % PAGE_SIZE == 0 && length % PAGE_SIZE == 0
      requires mem.Valid() && Exclusive(pt, mem.Free(), mem.total)
      requires !fixed ==> !Intersects(list.contents, start, start + length)
      modifies this`pt, list, list.repr, mem, mem.bitmap
      ensures ok && Valid() && fresh(list.repr - old(list.repr))
      ensures mem.Valid() && Exclusive(pt, mem.Free(), mem.total)
      ensures mem.Free() + Frames(pt) == old(mem.Free() + Frames(pt))
      ensures list.contents == Underneath(old(list.contents), fixed, start, start + length, split)
      ensures pt == UnderneathPages(old(pt), old(list.contents), fixed, start, start + length)
    {
      hide Pmm.PhysMem.Valid, Pmm.PhysMem.Free, Exclusive, Frames, Describes, NextLinks, PrevLinks, Cleared, PageEnd, PageDown, AfterUnmap;
      PageAligned(start);
      PageAligned(start + length);
      if fixed {
        var err := Munmap(start, length, split, mem);
        ok := err == 0;
      } else {
        var v;
        ghost var i;
        v, i := list.FindIntersection(start, start + length);
        ok := v == null;
      }
    }

    /** `vmm_mmap` once its place is chosen. */
    method MapRange(area: Area, fixed: bool, populate: bool, offset: int, split: bool, memory: bool,
                    tables: nat -> bool, read: int -> Option<Bytes>, mem: Pmm.PhysMem, ram: Ram) returns (ok: bool)
      requires Valid() && Aligned(area) && area.end <= USER_SPACE_END
      requires mem.Valid() && Exclusive(pt, mem.Free(), mem.total)
      requires !fixed ==> !Intersects(list.contents, area.start, area.end)
      modifies this`pt, list, list.repr, mem, mem.bitmap, ram
      ensures Valid() && fresh(list.repr - old(list.repr))
      ensures mem.Valid() && Exclusive(pt, mem.Free(), mem.total)
      ensures mem.Free() + Frames(pt) == old(mem.Free() + Frames(pt))
      ensures ok ==> Overrides(list.contents, old(list.contents), area)
      ensures Confined(pt, ram.page, old(pt), old(ram.page), old(mem.Free()), area.start, area.end)
      ensures Kept(ram.page, old(ram.page), old(mem.Free() + Frames(pt)))
      ensures ok && populate ==> Loaded(pt, ram.page, area.start, area.end, area.prot, offset - area.start, read)
      ensures !ok || !populate ==>
        var tried := populate && memory && !Blocked(Underneath(old(list.contents), fixed, area.start, area.end, split), area);
        pt == Leaves(old(pt), old(list.contents), fixed, tried, area.start, area.end)
      ensures !ok ==> GivenUp(list.contents, old(list.contents), fixed, area.start, area.end, split)
      ensures ok <==>
        (memory && !Blocked(Underneath(old(list.contents), fixed, area.start, area.end, split), area) &&
         (populate ==>
            var u := UnderneathPages(old(pt), old(list.contents), fixed, area.start, area.end);
            CanFill(u, Spare(old(mem.Free()), old(pt), u), area.start, area.end, offset - area.start, tables, read)))
      ensures Solid(old(list.contents)) && area.start < area.end ==> Solid(list.contents)
      ensures Resident(old(pt), old(ram.page)) ==> Resident(pt, ram.page)
    {
      hide Pmm.PhysMem.Valid, Pmm.PhysMem.Free, Exclusive, Frames, Describes, NextLinks, PrevLinks, Cleared, Underneath,
           UnderneathPages, Loaded, Kept, Sorted, Blocked, Overrides, Removes, Solid, SameMap, SameOutside, Confined, Resident, Without,
           GivenUp, CanFill, Spare;
      ghost var s, was, free, page := list.contents, pt, mem.Free(), ram.page;
      ok := ClearRange(area.start, area.end - area.start, fixed, split, mem);
      ghost var mid, free' := list.repr, mem.Free();
      ok := MapAt(area, populate, offset, split, memory, tables, read, mem, ram);
      assert list.repr - old(list.repr) <= (list.repr - mid) + (mid - old(list.repr));
      ghost var tried := populate && memory && !Blocked(Underneath(s, fixed, area.start, area.end, split), area);
      MapRangeMeans(list.contents, s, area, fixed, split, ok, tried);
      ConfinedRange(pt, ram.page, was, page, free, s, fixed, area.start, area.end, free', mem.total);
    }

    /** `vmm_mmap`. */
    method Mmap(addr: nat, length: nat, prot: bv32, flags: bv32, file: nat, offset: int, split: bool, memory: bool,
                tables: nat -> bool, read: int -> Option<Bytes>, mem: Pmm.PhysMem, ram: Ram) returns (r: Option<nat>)
      requires Valid() && addr < U64 && length < U64
      requires mem.Valid() && Exclusive(pt, mem.Free(), mem.total)
      modifies this`pt, list, list.repr, mem, mem.bitmap, ram
      ensures Valid() && fresh(list.repr - old(list.repr))
      ensures mem.Valid() && Exclusive(pt, mem.Free(), mem.total)
      ensures mem.Free() + Frames(pt) == old(mem.Free() + Frames(pt))
      ensures r.Some? ==> r.value == Place(old(list.contents), addr, length, flags)
      ensures r.Some? ==> Overrides(list.contents, old(list.contents), Requested(r.value, length, prot, flags, file, offset))
      ensures r.Some? && flags & MAP_ANONYMOUS == 0 ==>
        Loaded(pt, ram.page, r.value, r.value + PageUp(length), prot, offset - r.value, read)
      ensures r.Some? <==>
        (memory && Accepts(old(list.contents), addr, length, prot, flags, file, offset, split) &&
         (flags & MAP_ANONYMOUS == 0 ==>
            var at := Place(old(list.contents), addr, length, flags);
            var u := UnderneathPages(old(pt), old(list.contents), flags & MAP_FIXED != 0, at, at + PageUp(length));
            CanFill(u, Spare(old(mem.Free()), old(pt), u), at, at + PageUp(length), offset - at, tables, read)))
      ensures Placeable(old(list.contents), addr, length, flags, file, offset) ==>
        var at := Place(old(list.contents), addr, length, flags);
        Confined(pt, ram.page, old(pt), old(ram.page), old(mem.Free()), at, at + PageUp(length)) &&
        (r.None? ==> GivenUp(list.contents, old(list.contents), flags & MAP_FIXED != 0, at, at + PageUp(length), split)) &&
        (r.None? || flags & MAP_ANONYMOUS != 0 ==>
           var tried := flags & MAP_ANONYMOUS == 0 && memory && Accepts(old(list.contents), addr, length, prot, flags, file, offset, split);
           pt == Leaves(old(pt), old(list.contents), flags & MAP_FIXED != 0, tried, at, at + PageUp(length)))
      ensures !Placeable(old(list.contents), addr, length, flags, file, offset) ==>
        r.None? && pt == old(pt) && list.contents == old(list.contents) && ram.page == old(ram.page) && mem.Free() == old(mem.Free())
      ensures Kept(ram.page, old(ram.page), old(mem.Free() + Frames(pt)))
      ensures Resident(old(pt), old(ram.page)) ==> Resident(pt, ram.page)
      ensures Solid(old(list.contents)) && PageUp(length) > 0 ==> Solid(list.contents)
    {
      hide Pmm.PhysMem.Valid, Pmm.PhysMem.Free, Exclusive, Frames, Describes, NextLinks, PrevLinks, Cleared, PageUp, Underneath,
           UnderneathPages, Confined, Resident, Loaded, Kept, Sorted, Blocked, Intersects, Overrides, Removes, Solid, Placeable,
           SameMap, Without, Lowest, Place, AreaFlags, CanFill, Spare, Leaves;
      PageUpWraps(length);
      SameMapRefl(list.contents);
      var place := ChoosePlace(addr, length, flags, file, offset);
      if place.None? {
        KeptStart(ram.page, mem.Free() + Frames(pt));
        return None;
      }
      var (start, len) := place.value;
      var area := Area(start, start + len, prot, AreaFlags(prot, flags), file, offset % U64);
      var ok := MapRange(area, flags & MAP_FIXED != 0, flags & MAP_ANONYMOUS == 0 && file != 0, offset,
                         split, memory, tables, read, mem, ram);
      r := if ok then Some(start) else None;
    }
  }

  /** The areas and the pages on which a mapping is placed: a fixed one clears its range first. */
  ghost function Underneath(s: seq<Area>, fixed: bool, lo: nat, hi: nat, split: bool): seq<Area>
  {
    if fixed then AfterUnmap(s, lo, hi, split) else s
  }

  ghost function UnderneathPages(pt: map<nat, Pte>, s: seq<Area>, fixed: bool, lo: nat, hi: nat): map<nat, Pte>
  {
    if fixed then Cleared(pt, s, lo, hi) else pt
  }

  /**
   * The page table that a request leaves unless it fills its pages: as it was, with a fixed range cleared; without any
   * page of the range when it `tried` to fill them and failed.
   */
  ghost function Leaves(was: map<nat, Pte>, s: seq<Area>, fixed: bool, tried: bool, lo: nat, hi: nat): map<nat, Pte>
  {
    if tried then Without(was, lo, hi) else UnderneathPages(was, s, fixed, lo, hi)
  }

  /** A failed request leaves all pages exactly if there was none in its way to be cleared or withdrawn. */
  lemma LeavesAll(was: map<nat, Pte>, s: seq<Area>, fixed: bool, tried: bool, lo: nat, hi: nat)
    ensures Leaves(was, s, fixed, tried, lo, hi) == was <==>
            forall a :: a in was && In(a, lo, hi) ==> !tried && !(fixed && Mapped(s, a))
  {
    var t := Leaves(was, s, fixed, tried, lo, hi);
    assert forall a :: a in was && !In(a, lo, hi) ==> a in t && t[a] == was[a];
    if forall a :: a in was && In(a, lo, hi) ==> !tried && !(fixed && Mapped(s, a)) {
      assert forall a :: a in was ==> a in t && t[a] == was[a];
      assert t == was;
    } else {
      var a :| a in was && In(a, lo, hi) && (tried || (fixed && Mapped(s, a)));
      assert a !in t;
    }
  }

  /**
   * The input for which a failed file mapping takes a page away: a page at the bottom of the heap that lies in no area,
   * as the program break makes them. The mapping is accepted there, cannot be filled, and its withdrawal unmaps the page.
   */
  lemma LosesPage(e: Pte, free: set<nat>, length: nat, prot: bv32, flags: bv32, file: nat, split: bool,
                  tables: nat -> bool, read: int -> Option<Bytes>)
    requires 0 < length <= PAGE_SIZE && file != 0 && flags & MAP_FIXED == 0 && flags & MAP_ANONYMOUS == 0
    ensures var was := map[USER_HEAP_BASE := e];
      Accepts([], 0, length, prot, flags, file, 0, split) && Place([], 0, length, flags) == USER_HEAP_BASE &&
      !CanFill(was, free, USER_HEAP_BASE, USER_HEAP_BASE + PageUp(length), 0 - USER_HEAP_BASE, tables, read) &&
      Leaves(was, [], false, true, USER_HEAP_BASE, USER_HEAP_BASE + PageUp(length)) == map[] != was
  {
    var was, len := map[USER_HEAP_BASE := e], PageUp(length);
    assert len == PAGE_SIZE;
    assert Lowest([], USER_HEAP_BASE, len);
    assert In(USER_HEAP_BASE, USER_HEAP_BASE, USER_HEAP_BASE + len) && USER_HEAP_BASE in was;
  }

  /**
   * Only the range is touched: other pages keep their entries, and no frame changes its contents
   * unless it was free or belonged to a page of the range.
   */
  ghost predicate Confined(pt: map<nat, Pte>, page: map<nat, Bytes>, was: map<nat, Pte>, before: map<nat, Bytes>,
                           free: set<nat>, lo: nat, hi: nat)
  {
    SameOutside(pt, was, lo, hi) && Kept(page, before, free + Frames(Within(was, lo, hi)))
  }

  /** What is confined to a range leaves every other page its frame, its flags and its bytes. */
  lemma ConfinedBytes(pt: map<nat, Pte>, page: map<nat, Bytes>, was: map<nat, Pte>, before: map<nat, Bytes>,
                      free: set<nat>, total: nat, lo: nat, hi: nat, a: nat)
    requires Confined(pt, page, was, before, free, lo, hi) && Exclusive(was, free, total) && Resident(was, before) && !In(a, lo, hi)
    ensures a in pt <==> a in was
    ensures a in pt ==> pt[a] == was[a] && pt[a].frame in page && page[pt[a].frame] == before[was[a].frame]
  {
    if a in was { assert was[a].frame in Frames(was); }
  }

  /** The free frames once the page table `was` has shrunk to `pt`. */
  ghost function Spare(free: set<nat>, was: map<nat, Pte>, pt: map<nat, Pte>): set<nat>
  {
    free + Frames(was) - Frames(pt)
  }

  /** Clearing a range frees frames of its pages only. */
  lemma FreedWithin(was: map<nat, Pte>, free: set<nat>, s: seq<Area>, fixed: bool, lo: nat, hi: nat, free': set<nat>, total: nat)
    requires var pt := UnderneathPages(was, s, fixed, lo, hi);
      free' + Frames(pt) == free + Frames(was) && Exclusive(pt, free', total)
    ensures free' <= free + Frames(Within(was, lo, hi))
  {
    var pt := UnderneathPages(was, s, fixed, lo, hi);
    forall f | f in free' && f !in free
      ensures f in Frames(Within(was, lo, hi))
    {
      assert f in Frames(was) && f !in Frames(pt);
      var a :| a in was && was[a].frame == f;
      assert a !in pt;
      assert Within(was, lo, hi)[a].frame == f;
    }
  }

  /** A mapping attempt on top of a cleared range stays within the range. */
  lemma ConfinedRange(pt: map<nat, Pte>, page: map<nat, Bytes>, was: map<nat, Pte>, before: map<nat, Bytes>, free: set<nat>,
                      s: seq<Area>, fixed: bool, lo: nat, hi: nat, free': set<nat>, total: nat)
    requires var mid := UnderneathPages(was, s, fixed, lo, hi);
      free' + Frames(mid) == free + Frames(was) && Exclusive(mid, free', total) && SameOutside(pt, mid, lo, hi) &&
      Kept(page, before, free')
    ensures Confined(pt, page, was, before, free, lo, hi) && Kept(page, before, free + Frames(was))
    ensures free' == Spare(free, was, UnderneathPages(was, s, fixed, lo, hi))
    ensures Without(UnderneathPages(was, s, fixed, lo, hi), lo, hi) == Without(was, lo, hi)
    ensures Resident(was, before) ==> Resident(UnderneathPages(was, s, fixed, lo, hi), before)
  {
    FreedWithin(was, free, s, fixed, lo, hi, free', total);
    assert free' <= free + Frames(was);
  }

  /** Without empty areas a mapping is in the way of nothing once its range could be cleared. */
  lemma UnderneathClear(s: seq<Area>, fixed: bool, area: Area, split: bool)
    requires Sorted(s) && Solid(s) && Aligned(area) && area.start < area.end
    requires !fixed ==> !Intersects(s, area.start, area.end)
    ensures Blocked(Underneath(s, fixed, area.start, area.end, split), area) <==>
            fixed && !Removable(s, area.start, area.end, split)
    ensures Solid(Underneath(s, fixed, area.start, area.end, split))
  {
    if fixed { ClearAfter(s, area.start, area.end, split); }
    BlockedIsIntersects(Underneath(s, fixed, area.start, area.end, split), area);
  }

  /** What a failed mapping leaves: the old map, at a fixed place that could be cleared without the range. */
  ghost predicate GivenUp(t: seq<Area>, s: seq<Area>, fixed: bool, lo: nat, hi: nat, split: bool)
  {
    if fixed && Removable(s, lo, hi, split) then Removes(t, s, lo, hi) else SameMap(t, s)
  }

  lemma SolidInserted(s: seq<Area>, k: nat, v: Area)
    requires k <= |s|
    ensures Solid(Inserted(s, k, v)) <==> Solid(s) && v.start < v.end
  {
    var t := Inserted(s, k, v);
    assert t[k] == v && forall i :: 0 <= i < |s| ==> s[i] == t[if i < k then i else i + 1];
  }

  lemma SameMapRefl(s: seq<Area>)
    ensures SameMap(s, s)
  {}

  /** The map after a mapping attempt, with the range cleared first when `fixed`. */
  lemma MapRangeMeans(t: seq<Area>, s: seq<Area>, area: Area, fixed: bool, split: bool, ok: bool, tried: bool)
    requires Sorted(s) && Aligned(area) && (!fixed ==> !Intersects(s, area.start, area.end))
    requires var u := Underneath(s, fixed, area.start, area.end, split);
      (ok || tried ==> !Blocked(u, area)) &&
      if ok then Overrides(t, u, area) else if tried then Removes(t, u, area.start, area.end) else t == u
    ensures ok ==> Overrides(t, s, area)
    ensures !ok ==> GivenUp(t, s, fixed, area.start, area.end, split)
    ensures Solid(s) && area.start < area.end ==> Solid(Underneath(s, fixed, area.start, area.end, split))
  {
    hide Blocked;
    if Solid(s) && area.start < area.end { UnderneathClear(s, fixed, area, split); }
    SameMapRefl(s);
    if fixed {
      if !Removable(s, area.start, area.end, split) { StuckIsBlocked(s, area, split); }
      else if ok { OverridesAfter(t, s, area, split); }
      else { RemovesAfter(t, s, area.start, area.end, split); }
    } else if !ok && tried {
      RemovesClear(t, s, area.start, area.end);
    }
  }

  /** What the area of a request says about it. */
  lemma RequestedMeans(start: nat, length: nat, prot: bv32, flags: bv32, file: nat, offset: int)
    ensures var v := Requested(start, length, prot, flags, file, offset);
      v.prot == prot && v.file == file && (0 <= offset < U64 ==> v.offset == offset) &&
      (v.flags & 1 != 0 <==> prot & 1 != 0) && (v.flags & 2 != 0 <==> prot & 2 != 0) && (v.flags & 4 != 0 <==> prot & 4 != 0) &&
      (v.flags & 8 != 0 <==> flags & 1 != 0) && (v.flags & 16 != 0 <==> flags & 2 != 0) &&
      (v.flags & 0x80 != 0 <==> flags & 0x20 != 0) && v.flags & !0x9f == 0
  {
    AreaFlagsMean(prot, flags);
  }

  /** The area that a request asks for. */
  ghost function Requested(start: nat, length: nat, prot: bv32, flags: bv32, file: nat, offset: int): Area
  {
    Area(start, start + PageUp(length), prot, AreaFlags(prot, flags), file, offset % U64)
  }

  lemma WithdrawExact(t: seq<Area>, s: seq<Area>, area: Area, split: bool, pt: map<nat, Pte>)
    requires Sorted(t) && area in t && Overrides(t, s, area)
    ensures Removes(AfterUnmap(t, area.start, area.end, split), s, area.start, area.end)
    ensures Cleared(pt, t, area.start, area.end) == Without(pt, area.start, area.end)
  {
    var lo, hi := area.start, area.end;
    var k :| 0 <= k < |t| && t[k] == area;
    assert !Splits(t, lo, hi);
    UnmapRemoves(t, lo, hi);
    assert forall a: nat :: In(a, lo, hi) ==> Covers(t[k], a);
    assert Removes(Unmap(t, lo, hi), s, lo, hi) by {
      forall a: nat
        ensures Lookup(Unmap(t, lo, hi), a) == if lo <= a < hi then None else Lookup(s, a)
      {
        assert Lookup(t, a) == if Covers(area, a) then Some(BackingAt(area, a)) else Lookup(s, a);
      }
    }
  }

  /** The request is well formed and there is a place for it. */
  ghost predicate Placeable(s: seq<Area>, addr: nat, length: nat, flags: bv32, file: nat, offset: int)
  {
    length != 0 && (flags & MAP_ANONYMOUS == 0 ==> file != 0 && offset >= 0 && offset % PAGE_SIZE == 0) &&
    if flags & MAP_FIXED != 0 then addr % PAGE_SIZE == 0 && addr + PageUp(length) <= USER_SPACE_END
    else exists b: nat :: Fits(s, b, PageUp(length))
  }

  /** Where a request goes: where it asks to be, or to the lowest place where it fits. */
  ghost function Place(s: seq<Area>, addr: nat, length: nat, flags: bv32): nat
  {
    if flags & MAP_FIXED != 0 then addr
    else if b: nat :| Lowest(s, b, PageUp(length)) then b else 0
  }

  /** The place of a request that has one. */
  lemma PlaceMeans(s: seq<Area>, addr: nat, length: nat, flags: bv32, file: nat, offset: int)
    requires Placeable(s, addr, length, flags, file, offset)
    ensures var at := Place(s, addr, length, flags);
      if flags & MAP_FIXED != 0 then at == addr else Lowest(s, at, PageUp(length))
  {
    if flags & MAP_FIXED == 0 {
      var b: nat :| Fits(s, b, PageUp(length));
      LowestExists(s, b, PageUp(length));
    }
  }

  lemma {:induction false} LowestExists(s: seq<Area>, b: nat, length: nat)
    requires Fits(s, b, length)
    ensures exists c: nat :: Lowest(s, c, length)
  {
    if c: nat :| c < b && Fits(s, c, length) {
      LowestExists(s, c, length);
    } else {
      assert Lowest(s, b, length);
    }
  }

  /** The request has a place and no area is in its way there. */
  ghost predicate Accepts(s: seq<Area>, addr: nat, length: nat, prot: bv32, flags: bv32, file: nat, offset: int, split: bool)
  {
    var at := Place(s, addr, length, flags);
    Placeable(s, addr, length, flags, file, offset) &&
    !Blocked(Underneath(s, flags & MAP_FIXED != 0, at, at + PageUp(length), split), Requested(at, length, prot, flags, file, offset))
  }

  /** The lowest place where the mapping fits. */
  ghost predicate Lowest(s: seq<Area>, at: nat, length: nat)
  {
    Fits(s, at, length) && forall b: nat :: b < at ==> !Fits(s, b, length)
  }

  lemma KeptStart(page: map<nat, Bytes>, free: set<nat>)
    ensures Kept(page, page, free)
  {}

  lemma KeptStep(now: map<nat, Bytes>, mid: map<nat, Bytes>, before: map<nat, Bytes>, free': set<nat>, free: set<nat>)
    requires Kept(now, mid, free') && Kept(mid, before, free) && free' <= free
    ensures Kept(now, before, free)
  {}

  ghost predicate SameOutside(pt: map<nat, Pte>, before: map<nat, Pte>, lo: nat, hi: nat)
  {
    forall a: nat :: !In(a, lo, hi) ==> (a in pt <==> a in before) && (a in pt ==> pt[a] == before[a])
  }

  /** Every page of the range is there, allows what was asked for, and shows what the file has there. */
  ghost predicate Loaded(pt: map<nat, Pte>, page: map<nat, Bytes>, lo: nat, hi: nat, prot: bv32, shift: int, read: int -> Option<Bytes>)
  {
    forall a: nat :: In(a, lo, hi) && a % PAGE_SIZE == 0 ==>
      a in pt && Allows(pt[a].flags, prot) && pt[a].frame in page && read(shift + a).Some? &&
      Shows(page[pt[a].frame], read(shift + a).value)
  }

  lemma FilledLoaded(pt: map<nat, Pte>, page: map<nat, Bytes>, lo: nat, hi: nat, prot: bv32, shift: int, read: int -> Option<Bytes>)
    requires Filled(pt, page, lo, hi, PteFlags(prot), shift, read)
    ensures Loaded(pt, page, lo, hi, prot, shift, read)
  {
    hide PteFlags, Padded, Allows, Shows;
    PteFlagsAllow(prot);
    forall a: nat | In(a, lo, hi) && a % PAGE_SIZE == 0
      ensures read(shift + a).Some? && Shows(Padded(read(shift + a).value), read(shift + a).value)
    {
      PaddedShows(read(shift + a).value);
    }
  }

  /** Every page of the range is mapped to a frame that holds what the file has there. */
  ghost predicate Filled(pt: map<nat, Pte>, page: map<nat, Bytes>, lo: nat, hi: nat, flags: bv32, shift: int, read: int -> Option<Bytes>)
  {
    forall a: nat :: In(a, lo, hi) && a % PAGE_SIZE == 0 ==>
      a in pt && pt[a].flags == flags && pt[a].frame in page && read(shift + a).Some? &&
      page[pt[a].frame] == Padded(read(shift + a).value)
  }

  /** A file mapping can be filled: enough free frames, and every page is absent, gets a table and can be read. */
  ghost predicate CanFill(pt: map<nat, Pte>, free: set<nat>, lo: nat, hi: nat, shift: int, tables: nat -> bool, read: int -> Option<Bytes>)
  {
    hi - lo <= |free| * PAGE_SIZE &&
    forall a: nat :: In(a, lo, hi) && a % PAGE_SIZE == 0 ==> a !in pt && tables(a) && read(shift + a).Some?
  }

  /** The pages up to `a` could be filled, and what is left of the free frames. */
  ghost predicate Progress(pt: map<nat, Pte>, free: set<nat>, left: set<nat>, lo: nat, a: nat, shift: int,
                           tables: nat -> bool, read: int -> Option<Bytes>)
  {
    lo <= a && CanFill(pt, free, lo, a, shift, tables, read) && |free| * PAGE_SIZE == |left| * PAGE_SIZE + (a - lo)
  }

  lemma ProgressStarts(pt: map<nat, Pte>, free: set<nat>, lo: nat, shift: int, tables: nat -> bool, read: int -> Option<Bytes>)
    ensures Progress(pt, free, free, lo, lo, shift, tables, read)
  {
    assert |free| >= 0;
  }

  lemma ProgressStep(pt: map<nat, Pte>, free: set<nat>, left: set<nat>, lo: nat, a: nat, hi: nat, shift: int,
                     tables: nat -> bool, read: int -> Option<Bytes>, f: nat)
    requires Progress(pt, free, left, lo, a, shift, tables, read) && a < hi && a % PAGE_SIZE == 0 && hi % PAGE_SIZE == 0
    ensures left == {} || a in pt || !tables(a) || read(shift + a).None? ==> !CanFill(pt, free, lo, hi, shift, tables, read)
    ensures f in left && a !in pt && tables(a) && read(shift + a).Some? ==>
      Progress(pt, free, left - {f}, lo, a + PAGE_SIZE, shift, tables, read)
  {
    assert In(a, lo, hi);
    if f in left && a !in pt && tables(a) && read(shift + a).Some? {
      assert |left| == |left - {f}| + 1;
      forall b: nat | In(b, lo, a + PAGE_SIZE) && b % PAGE_SIZE == 0
        ensures b !in pt && tables(b) && read(shift + b).Some?
      {
        NextAligned(a, b);
        assert b == a || In(b, lo, a);
      }
      assert CanFill(pt, free, lo, a + PAGE_SIZE, shift, tables, read);
    }
  }

  lemma NextAligned(a: nat, b: nat)
    requires a % PAGE_SIZE == 0 && b % PAGE_SIZE == 0 && b < a + PAGE_SIZE
    ensures b <= a
  {}

  lemma ProgressEnds(pt: map<nat, Pte>, free: set<nat>, left: set<nat>, lo: nat, a: nat, hi: nat, shift: int,
                     tables: nat -> bool, read: int -> Option<Bytes>)
    requires Progress(pt, free, left, lo, a, shift, tables, read) && (a == hi || (a == lo && hi <= lo))
    ensures CanFill(pt, free, lo, hi, shift, tables, read)
  {}

  /** What filling a range may do, whether it succeeds or not. */
  ghost predicate Attempted(pt: map<nat, Pte>, page: map<nat, Bytes>, free: set<nat>, was: map<nat, Pte>, before: map<nat, Bytes>,
                            all: set<nat>, lo: nat, hi: nat)
  {
    SameOutside(pt, was, lo, hi) && Kept(page, before, all) && free + Frames(pt) == all + Frames(was) &&
    (Resident(was, before) ==> Resident(pt, page))
  }

  /** The pages up to `a` are filled. */
  ghost predicate Populating(pt: map<nat, Pte>, page: map<nat, Bytes>, free: set<nat>, was: map<nat, Pte>, before: map<nat, Bytes>,
                             all: set<nat>, lo: nat, a: nat, flags: bv32, shift: int, tables: nat -> bool, read: int -> Option<Bytes>)
  {
    Attempted(pt, page, free, was, before, all, lo, a) && free <= all && Filled(pt, page, lo, a, flags, shift, read) &&
    Progress(was, all, free, lo, a, shift, tables, read)
  }

  lemma PopulateStarts(pt: map<nat, Pte>, page: map<nat, Bytes>, free: set<nat>, lo: nat, flags: bv32, shift: int,
                       tables: nat -> bool, read: int -> Option<Bytes>)
    ensures Populating(pt, page, free, pt, page, free, lo, lo, flags, shift, tables, read)
  {
    ProgressStarts(pt, free, lo, shift, tables, read);
  }

  lemma AttemptStep(pt: map<nat, Pte>, page: map<nat, Bytes>, free: set<nat>, pt': map<nat, Pte>, page': map<nat, Bytes>, free': set<nat>,
                    was: map<nat, Pte>, before: map<nat, Bytes>, all: set<nat>, lo: nat, a: nat, hi: nat)
    requires Attempted(pt, page, free, was, before, all, lo, a) && free <= all && lo <= a < hi
    requires free' + Frames(pt') == free + Frames(pt) && Kept(page', page, free) && (Resident(pt, page) ==> Resident(pt', page'))
    requires pt' == pt || (a in pt' && pt' == pt[a := pt'[a]])
    ensures Attempted(pt', page', free', was, before, all, lo, hi)
  {
    hide Frames, Kept, Resident;
    KeptStep(page', page, before, free, all);
  }

  lemma PopulateStep(pt: map<nat, Pte>, page: map<nat, Bytes>, free: set<nat>, pt': map<nat, Pte>, page': map<nat, Bytes>, free': set<nat>,
                     was: map<nat, Pte>, before: map<nat, Bytes>, all: set<nat>, lo: nat, a: nat, hi: nat, flags: bv32, shift: int,
                     tables: nat -> bool, read: int -> Option<Bytes>, total: nat, ok: bool)
    requires Populating(pt, page, free, was, before, all, lo, a, flags, shift, tables, read) && Exclusive(pt, free, total)
    requires lo <= a < hi && a % PAGE_SIZE == 0 && hi % PAGE_SIZE == 0
    requires free' + Frames(pt') == free + Frames(pt) && Kept(page', page, free) && (Resident(pt, page) ==> Resident(pt', page'))
    requires pt' == pt || (a in pt' && pt' == pt[a := pt'[a]])
    requires ok <==> free != {} && a !in pt && tables(a) && read(shift + a).Some?
    requires ok ==> a in pt' && pt' == pt[a := pt'[a]] && pt'[a].flags == flags && pt'[a].frame in free && free' == free - {pt'[a].frame}
    requires ok ==> page' == page[pt'[a].frame := Padded(read(shift + a).value)]
    ensures ok ==> Populating(pt', page', free', was, before, all, lo, a + PAGE_SIZE, flags, shift, tables, read)
    ensures !ok ==> Attempted(pt', page', free', was, before, all, lo, hi) && !CanFill(was, all, lo, hi, shift, tables, read)
  {
    hide Frames, Kept, Resident, Exclusive, Padded, Filled, Progress, CanFill;
    AttemptStep(pt, page, free, pt', page', free', was, before, all, lo, a, if ok then a + PAGE_SIZE else hi);
    ProgressStep(was, all, free, lo, a, hi, shift, tables, read, if ok then pt'[a].frame else 0);
    assert !In(a, lo, a);
    if ok {
      FilledStep(pt, page, free, total, lo, a, flags, shift, read, pt'[a]);
    }
  }

  lemma PopulateEnds(pt: map<nat, Pte>, page: map<nat, Bytes>, free: set<nat>, was: map<nat, Pte>, before: map<nat, Bytes>, all: set<nat>,
                     lo: nat, a: nat, hi: nat, flags: bv32, shift: int, tables: nat -> bool, read: int -> Option<Bytes>)
    requires Populating(pt, page, free, was, before, all, lo, a, flags, shift, tables, read) && (a == hi || (a == lo && hi <= lo))
    ensures Attempted(pt, page, free, was, before, all, lo, hi) && Filled(pt, page, lo, hi, flags, shift, read)
    ensures CanFill(was, all, lo, hi, shift, tables, read)
  {
    hide Progress, Frames;
    ProgressEnds(was, all, free, lo, a, hi, shift, tables, read);
  }

  lemma FilledStep(pt: map<nat, Pte>, page: map<nat, Bytes>, free: set<nat>, total: nat, lo: nat, a: nat, flags: bv32,
                   shift: int, read: int -> Option<Bytes>, e: Pte)
    requires Exclusive(pt, free, total) && Filled(pt, page, lo, a, flags, shift, read) && a % PAGE_SIZE == 0
    requires a !in pt && e.flags == flags && e.frame in free && read(shift + a).Some?
    ensures Filled(pt[a := e], page[e.frame := Padded(read(shift + a).value)], lo, a + PAGE_SIZE, flags, shift, read)
  {
    assert forall b :: b in pt ==> pt[b].frame in Frames(pt);
  }

  /** No frame changes its contents unless it was free. */
  ghost predicate Kept(now: map<nat, Bytes>, before: map<nat, Bytes>, free: set<nat>)
  {
    forall f :: f in before && f !in free ==> f in now && now[f] == before[f]
  }

  /** `length` bytes at `at` lie in the mapping part of user space and meet no area. */
  ghost predicate Fits(s: seq<Area>, at: nat, length: nat)
  {
    USER_HEAP_BASE <= at && at + length <= USER_SPACE_END && !Intersects(s, at, at + length)
  }

  /** Every place from a blocked one up to the end of the blocking area is blocked too. */
  lemma NoFitBelow(s: seq<Area>, i: nat, at: nat, length: nat)
    requires i < |s| && Meets(s[i], at, at + length)
    ensures forall b: nat :: at <= b < s[i].end ==> !Fits(s, b, length)
  {
    forall b: nat | at <= b < s[i].end
      ensures !Fits(s, b, length)
    {
      assert Meets(s[i], b, b + length);
    }
  }

  /** Rounding a length up to pages gives 0 exactly for lengths in the last page of the 64-bit range. */
  lemma LengthWraps(length: nat)
    requires 0 < length < U64
    ensures PageUp(length) == 0 <==> length > U64 - PAGE_SIZE
  {}

  lemma InsertedTail(nodes: seq<VmArea>, k: nat, v: VmArea)
    requires k <= |nodes|
    ensures Inserted(nodes, k, v)[k + 1..] == nodes[k..]
  {}
}
