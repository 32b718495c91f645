/**
 * Virtual memory areas as values, and the map from addresses to backings that
 * a sorted list of areas stands for.
 */
module Areas {
  import opened Common

  /** The fields of `struct vm_area` other than its links; `file` 0 is no file. */
  datatype Area = Area(start: nat, end: nat, prot: bv32, flags: bv32, file: nat, offset: nat)

  /** What an address is backed by, with the file offset of that very address. */
  datatype Backing = Backing(prot: bv32, flags: bv32, file: nat, offset: nat)

  predicate Covers(v: Area, a: nat) { v.start <= a < v.end }

  function BackingAt(v: Area, a: nat): Backing
    requires v.start <= a
  {
    Backing(v.prot, v.flags, v.file, (v.offset + (a - v.start)) % U64)
  }

  ghost function Lookup(s: seq<Area>, a: nat): Option<Backing>
  {
    if s == [] then None
    else if Covers(s[0], a) then Some(BackingAt(s[0], a))
    else Lookup(s[1..], a)
  }

  predicate Aligned(v: Area)
  {
    v.start <= v.end < U64 && v.start % PAGE_SIZE == 0 && v.end % PAGE_SIZE == 0
  }

  /** Sorted, page-aligned and disjoint. */
  ghost predicate Sorted(s: seq<Area>)
  {
    (forall i :: 0 <= i < |s| ==> Aligned(s[i])) &&
    forall i, j :: 0 <= i < j < |s| ==> s[i].end <= s[j].start
  }

  /** No area is empty. */
  ghost predicate Solid(s: seq<Area>)
  {
    forall i :: 0 <= i < |s| ==> s[i].start < s[i].end
  }

  predicate Meets(v: Area, lo: nat, hi: nat) { v.start < hi && v.end > lo }

  ghost predicate Intersects(s: seq<Area>, lo: nat, hi: nat)
  {
    exists i :: 0 <= i < |s| && Meets(s[i], lo, hi)
  }

  ghost predicate Mapped(s: seq<Area>, a: nat)
  {
    exists i :: 0 <= i < |s| && Covers(s[i], a)
  }

  /** Some area reaches beyond both ends of the range, so that cutting splits it. */
  ghost predicate Splits(s: seq<Area>, lo: nat, hi: nat)
  {
    exists i :: 0 <= i < |s| && s[i].start < lo && hi < s[i].end
  }

  /** Where the insertion loop stops for `v`, and whether its overlap checks pass there. */
  ghost predicate Slot(s: seq<Area>, v: Area, k: nat)
  {
    k <= |s| && (forall j :: 0 <= j < k ==> s[j].start < v.start) && (k < |s| ==> v.start <= s[k].start)
  }

  ghost predicate Room(s: seq<Area>, v: Area, k: nat)
    requires k <= |s|
  {
    (k == |s| || v.end <= s[k].start) && (k == 0 || s[k - 1].end <= v.start)
  }

  /** Why an area cannot be put into the list: another one starts inside it, or it starts inside another one. */
  predicate Blocks(u: Area, v: Area) { v.start <= u.start < v.end || u.start < v.start < u.end }

  ghost predicate Blocked(s: seq<Area>, v: Area)
  {
    exists i :: 0 <= i < |s| && Blocks(s[i], v)
  }

  /** The overlap checks at the insertion point see exactly the areas that are in the way. */
  lemma RoomIsUnblocked(s: seq<Area>, v: Area, k: nat)
    requires Sorted(s) && Aligned(v) && Slot(s, v, k)
    ensures Room(s, v, k) <==> !Blocked(s, v)
  {
    if k < |s| && s[k].start < v.end { assert Blocks(s[k], v); }
    if k > 0 && s[k - 1].end > v.start { assert Blocks(s[k - 1], v); }
  }

  /** Without empty areas, what is in the way of an area is what meets it. */
  lemma BlockedIsIntersects(s: seq<Area>, v: Area)
    requires Solid(s) && v.start < v.end
    ensures Blocked(s, v) <==> Intersects(s, v.start, v.end)
  {
    if i :| 0 <= i < |s| && Blocks(s[i], v) { assert Meets(s[i], v.start, v.end); }
    if i :| 0 <= i < |s| && Meets(s[i], v.start, v.end) { assert Blocks(s[i], v); }
  }

  /** At a place that nothing meets, only an empty area at its very start is in the way. */
  lemma BlockedByEmpty(s: seq<Area>, v: Area)
    requires Sorted(s) && v.start <= v.end && !Intersects(s, v.start, v.end)
    ensures Blocked(s, v) <==> v.start < v.end && exists i :: 0 <= i < |s| && s[i].start == s[i].end == v.start
  {
    assert forall i :: 0 <= i < |s| ==> !Meets(s[i], v.start, v.end);
    if i :| 0 <= i < |s| && Blocks(s[i], v) { assert s[i].start == s[i].end == v.start; }
    if i :| 0 <= i < |s| && s[i].start == s[i].end == v.start < v.end { assert Blocks(s[i], v); }
  }

  /** The map of `t` is the map of `s` with the area on top; or with a range removed; or the same. */
  ghost predicate Overrides(t: seq<Area>, s: seq<Area>, v: Area)
  {
    forall a: nat :: Lookup(t, a) == if Covers(v, a) then Some(BackingAt(v, a)) else Lookup(s, a)
  }

  ghost predicate Removes(t: seq<Area>, s: seq<Area>, lo: nat, hi: nat)
  {
    forall a: nat :: Lookup(t, a) == if lo <= a < hi then None else Lookup(s, a)
  }

  ghost predicate SameMap(t: seq<Area>, s: seq<Area>)
  {
    forall a: nat :: Lookup(t, a) == Lookup(s, a)
  }

  lemma {:induction false} LookupAppend(s: seq<Area>, t: seq<Area>, a: nat)
    ensures Lookup(s + t, a) == if Lookup(s, a).Some? then Lookup(s, a) else Lookup(t, a)
  {
    if s == [] {
      assert s + t == t;
    } else {
      assert (s + t)[1..] == s[1..] + t;
      LookupAppend(s[1..], t, a);
    }
  }

  /** An address has a backing exactly when some area covers it. */
  lemma {:induction false} LookupSome(s: seq<Area>, a: nat)
    ensures Lookup(s, a).Some? <==> Mapped(s, a)
  {
    if s != [] {
      LookupSome(s[1..], a);
      if i :| 0 <= i < |s[1..]| && Covers(s[1..][i], a) { assert s[i + 1] == s[1..][i]; }
      if i :| 1 <= i < |s| && Covers(s[i], a) { assert s[1..][i - 1] == s[i]; }
    }
  }

  /** What is left of an area once `lo <= a < hi` is cut out of it. */
  ghost function Pieces(v: Area, lo: nat, hi: nat): seq<Area>
  {
    if !Meets(v, lo, hi) then [v]
    else
      (if v.start < lo then [v.(end := lo)] else []) +
      (if v.end > hi then [v.(start := hi, offset := (v.offset + (hi - v.start)) % U64)] else [])
  }

  ghost function Unmap(s: seq<Area>, lo: nat, hi: nat): seq<Area>
  {
    if s == [] then [] else Pieces(s[0], lo, hi) + Unmap(s[1..], lo, hi)
  }

  lemma {:induction false} UnmapAppend(s: seq<Area>, t: seq<Area>, lo: nat, hi: nat)
    ensures Unmap(s + t, lo, hi) == Unmap(s, lo, hi) + Unmap(t, lo, hi)
  {
    if s == [] {
      assert s + t == t;
    } else {
      assert (s + t)[1..] == s[1..] + t;
      UnmapAppend(s[1..], t, lo, hi);
    }
  }

  lemma PiecesLookup(v: Area, lo: nat, hi: nat, a: nat)
    requires lo <= hi && v.start <= v.end
    ensures Lookup(Pieces(v, lo, hi), a) == if lo <= a < hi then None else Lookup([v], a)
  {
    if Meets(v, lo, hi) {
      var left := if v.start < lo then [v.(end := lo)] else [];
      var right := if v.end > hi then [v.(start := hi, offset := (v.offset + (hi - v.start)) % U64)] else [];
      LookupAppend(left, right, a);
      if hi <= a < v.end {
        ModAdd(v.offset, hi - v.start, a - hi);
      }
    }
  }

  lemma ModAdd(x: nat, y: nat, z: nat)
    ensures ((x + y) % U64 + z) % U64 == (x + y + z) % U64
  {}

  /**
   * Cutting a range out of the list is removing it from the map: every other
   * address keeps its protection, file and file offset.
   */
  lemma {:induction false} UnmapLookup(s: seq<Area>, lo: nat, hi: nat, a: nat)
    requires lo <= hi && forall i :: 0 <= i < |s| ==> s[i].start <= s[i].end
    ensures Lookup(Unmap(s, lo, hi), a) == if lo <= a < hi then None else Lookup(s, a)
  {
    if s != [] {
      UnmapLookup(s[1..], lo, hi, a);
      PiecesLookup(s[0], lo, hi, a);
      LookupAppend(Pieces(s[0], lo, hi), Unmap(s[1..], lo, hi), a);
      LookupAppend([s[0]], s[1..], a);
      assert s == [s[0]] + s[1..];
    }
  }

  /** All areas end by `lo`, or all start from `hi`. */
  ghost predicate Between(s: seq<Area>, lo: nat, hi: nat)
  {
    forall i :: 0 <= i < |s| ==> lo <= s[i].start && s[i].end <= hi
  }

  lemma SortedAppend(s: seq<Area>, t: seq<Area>, m: nat)
    requires Sorted(s) && Sorted(t) && Between(s, 0, m) && Between(t, m, U64)
    ensures Sorted(s + t)
  {}

  lemma PiecesSorted(v: Area, lo: nat, hi: nat)
    requires Aligned(v) && lo <= hi < U64 && lo % PAGE_SIZE == 0 && hi % PAGE_SIZE == 0
    ensures Sorted(Pieces(v, lo, hi)) && Between(Pieces(v, lo, hi), v.start, v.end)
    ensures v.start < v.end ==> Solid(Pieces(v, lo, hi))
  {}

  lemma {:induction false} UnmapSorted(s: seq<Area>, lo: nat, hi: nat, from: nat)
    requires Sorted(s) && lo <= hi < U64 && lo % PAGE_SIZE == 0 && hi % PAGE_SIZE == 0 && Between(s, from, U64)
    ensures Sorted(Unmap(s, lo, hi)) && Between(Unmap(s, lo, hi), from, U64)
    ensures Solid(s) ==> Solid(Unmap(s, lo, hi))
  {
    if s != [] {
      PiecesSorted(s[0], lo, hi);
      UnmapSorted(s[1..], lo, hi, s[0].end);
      SortedAppend(Pieces(s[0], lo, hi), Unmap(s[1..], lo, hi), s[0].end);
    }
  }

  /** After the cut nothing meets the range any more. */
  lemma {:induction false} UnmapClears(s: seq<Area>, lo: nat, hi: nat)
    requires lo <= hi
    ensures !Intersects(Unmap(s, lo, hi), lo, hi)
  {
    if s != [] {
      UnmapClears(s[1..], lo, hi);
      var t := Unmap(s, lo, hi);
      var p := Pieces(s[0], lo, hi);
      assert forall i :: 0 <= i < |p| ==> !Meets(p[i], lo, hi);
      forall i | 0 <= i < |t|
        ensures !Meets(t[i], lo, hi)
      {
        if i >= |p| { assert t[i] == Unmap(s[1..], lo, hi)[i - |p|]; }
      }
    }
  }

  /** A new area in a free place overrides the map there and nowhere else. */
  lemma InsertLookup(s: seq<Area>, k: nat, v: Area, a: nat)
    requires Sorted(s) && k <= |s| && v.start <= v.end && Room(s, v, k)
    ensures Lookup(s[..k] + [v] + s[k..], a) == if Covers(v, a) then Some(BackingAt(v, a)) else Lookup(s, a)
  {
    var t, u := s[..k], s[k..];
    LookupAppend(t + [v], u, a);
    LookupAppend(t, [v], a);
    LookupAppend(t, u, a);
    assert s == t + u;
    if Covers(v, a) {
      LookupSome(t, a);
      assert forall i :: 0 <= i < |t| ==> t[i].end <= v.start;
    }
  }

  /** The end of a range rounded up to a page is still a 64-bit number, and a split has memory. */
  ghost predicate Removable(s: seq<Area>, lo: nat, hi: nat, split: bool)
  {
    hi < U64 && (split || !Splits(s, lo, hi))
  }

  ghost function AfterUnmap(s: seq<Area>, lo: nat, hi: nat, split: bool): seq<Area>
  {
    if Removable(s, lo, hi, split) then Unmap(s, lo, hi) else s
  }

  lemma AfterUnmapSolid(s: seq<Area>, lo: nat, hi: nat, split: bool)
    requires Sorted(s) && Solid(s) && lo <= hi && lo % PAGE_SIZE == 0 && hi % PAGE_SIZE == 0
    ensures Solid(AfterUnmap(s, lo, hi, split))
  {
    if Removable(s, lo, hi, split) { UnmapSorted(s, lo, hi, 0); }
  }

  /** Exactly then is the range removed from the map and nothing else touched. */
  lemma UnmapExact(s: seq<Area>, lo: nat, hi: nat, split: bool)
    requires Sorted(s) && lo <= hi
    ensures Removes(AfterUnmap(s, lo, hi, split), s, lo, hi) <==>
            Removable(s, lo, hi, split) || forall a: nat :: lo <= a < hi ==> !Mapped(s, a)
  {
    if Removable(s, lo, hi, split) {
      UnmapRemoves(s, lo, hi);
    } else {
      RemovesNothing(s, lo, hi);
    }
  }

  lemma RemovesNothing(s: seq<Area>, lo: nat, hi: nat)
    ensures Removes(s, s, lo, hi) <==> forall a: nat :: lo <= a < hi ==> !Mapped(s, a)
  {
    if Removes(s, s, lo, hi) {
      forall a: nat | lo <= a < hi ensures !Mapped(s, a) { LookupSome(s, a); }
    }
    if forall a: nat :: lo <= a < hi ==> !Mapped(s, a) {
      forall a: nat ensures Lookup(s, a) == if lo <= a < hi then None else Lookup(s, a) { LookupSome(s, a); }
    }
  }

  lemma UnmapRemoves(s: seq<Area>, lo: nat, hi: nat)
    requires lo <= hi && forall i :: 0 <= i < |s| ==> s[i].start <= s[i].end
    ensures Removes(Unmap(s, lo, hi), s, lo, hi)
  {
    forall a: nat
      ensures Lookup(Unmap(s, lo, hi), a) == if lo <= a < hi then None else Lookup(s, a)
    {
      UnmapLookup(s, lo, hi, a);
    }
  }

  /** Mapping over a range that was unmapped first. */
  lemma OverridesAfter(t: seq<Area>, s: seq<Area>, v: Area, split: bool)
    requires Sorted(s) && v.start <= v.end && Overrides(t, AfterUnmap(s, v.start, v.end, split), v)
    ensures Overrides(t, s, v)
  {
    forall a: nat
      ensures Lookup(t, a) == if Covers(v, a) then Some(BackingAt(v, a)) else Lookup(s, a)
    {
      UnmapLookup(s, v.start, v.end, a);
    }
  }

  lemma RemovesAfter(t: seq<Area>, s: seq<Area>, lo: nat, hi: nat, split: bool)
    requires Sorted(s) && lo <= hi && Removable(s, lo, hi, split)
    requires t == AfterUnmap(s, lo, hi, split) || Removes(t, AfterUnmap(s, lo, hi, split), lo, hi)
    ensures Removes(t, s, lo, hi)
  {
    UnmapRemoves(s, lo, hi);
    var u := AfterUnmap(s, lo, hi, split);
    if Removes(t, u, lo, hi) {
      forall a: nat
        ensures Lookup(t, a) == if lo <= a < hi then None else Lookup(s, a)
      {
        UnmapLookup(s, lo, hi, a);
      }
    }
  }

  /** A range that cannot be cleared for want of memory lies inside an area, which keeps every mapping out. */
  lemma StuckIsBlocked(s: seq<Area>, v: Area, split: bool)
    requires v.start <= v.end < U64 && !Removable(s, v.start, v.end, split)
    ensures AfterUnmap(s, v.start, v.end, split) == s && Blocked(s, v)
  {
    var i :| 0 <= i < |s| && s[i].start < v.start && v.end < s[i].end;
    assert Blocks(s[i], v);
  }

  /** The range is clear afterwards exactly when it could be removed. */
  lemma ClearAfter(s: seq<Area>, lo: nat, hi: nat, split: bool)
    requires Sorted(s) && Solid(s) && lo < hi < U64 && lo % PAGE_SIZE == 0 && hi % PAGE_SIZE == 0
    ensures Intersects(AfterUnmap(s, lo, hi, split), lo, hi) <==> !Removable(s, lo, hi, split)
    ensures Solid(AfterUnmap(s, lo, hi, split))
  {
    UnmapClears(s, lo, hi);
    UnmapSorted(s, lo, hi, 0);
    if !Removable(s, lo, hi, split) {
      var i :| 0 <= i < |s| && s[i].start < lo && hi < s[i].end;
      assert Meets(s[i], lo, hi);
    }
  }

  /** Removing a range that nothing meets changes nothing. */
  lemma RemovesClear(t: seq<Area>, s: seq<Area>, lo: nat, hi: nat)
    requires !Intersects(s, lo, hi) && Removes(t, s, lo, hi)
    ensures SameMap(t, s)
  {
    forall a: nat
      ensures Lookup(t, a) == Lookup(s, a)
    {
      LookupSome(s, a);
      assert forall i :: 0 <= i < |s| ==> !Meets(s[i], lo, hi);
    }
  }
}
