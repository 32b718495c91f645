/**
 * The physical page allocator: one bitmap (a set bit is a used page) shared by
 * the DMA, Normal and High zones, with a free counter per zone and in total.
 */
module Pmm {
  import opened Common

  const MAX_PAGES: nat := 0x100000

  datatype ZoneType = DMA | Normal | High

  /** The zone boundaries that `pmm_init_bitmap` computes: pages `start <= pfn < end`. */
  function Start(z: ZoneType): nat
  {
    match z case DMA => 0 case Normal => 0x1000 case High => 0x100000
  }

  function End(z: ZoneType, total: nat): (e: nat)
    requires total <= MAX_PAGES
    ensures Start(z) <= e <= MAX_PAGES
  {
    match z
    case DMA => if total > 0x1000 then 0x1000 else total
    case Normal => if total > 0x1000 then total else 0x1000
    case High => 0x100000
  }

  /** The number of clear bits in `lo <= i < hi`. */
  ghost function Clear(bits: seq<bool>, lo: nat, hi: nat): nat
    requires lo <= hi <= |bits|
  {
    if lo == hi then 0 else Clear(bits, lo, hi - 1) + (if bits[hi - 1] then 0 else 1)
  }

  /** `count` clear bits from `at`, within `lo <= i < hi`. */
  ghost predicate FreeRun(bits: seq<bool>, lo: nat, hi: nat, at: nat, count: nat)
    requires hi <= |bits|
  {
    lo <= at && at + count <= hi && forall i :: at <= i < at + count ==> !bits[i]
  }

  /** The lowest such run. */
  ghost predicate LowestRun(bits: seq<bool>, lo: nat, hi: nat, at: nat, count: nat)
    requires hi <= |bits|
  {
    FreeRun(bits, lo, hi, at, count) && forall b: nat :: b < at ==> !FreeRun(bits, lo, hi, b, count)
  }

  ghost predicate HasRun(bits: seq<bool>, lo: nat, hi: nat, count: nat)
    requires hi <= |bits|
  {
    exists at: nat :: FreeRun(bits, lo, hi, at, count)
  }

  predicate Between(p: nat, lo: nat, hi: nat) { lo <= p < hi }

  ghost function Pages(lo: nat, hi: nat): set<nat> { set p: nat | Between(p, lo, hi) && p < hi }

  ghost function PagesBelow(total: nat, lo: nat, hi: nat): set<nat> { set p: nat | p < total && Between(p, lo, hi) }

  /** Pages above 16 MB come first, then lower numbers. */
  ghost predicate Preferred(p: nat, q: nat)
  {
    if p >= 0x1000 then q < 0x1000 || p <= q else q < 0x1000 && p <= q
  }

  /** The page lies wholly inside the region; the page touches the region. */
  ghost predicate Inside(p: nat, base: nat, size: nat)
  {
    base <= p * PAGE_SIZE && (p + 1) * PAGE_SIZE <= base + size
  }

  ghost predicate Touches(p: nat, base: nat, size: nat)
  {
    base < (p + 1) * PAGE_SIZE && p * PAGE_SIZE < base + size
  }

  /** The pages that the region loops visit. */
  ghost function FreedBy(total: nat, base: nat, size: nat): set<nat>
  {
    PagesBelow(total, PageUp(base) / PAGE_SIZE, (base + size) % U64 / PAGE_SIZE)
  }

  ghost function UsedBy(total: nat, base: nat, size: nat): set<nat>
  {
    PagesBelow(total, base / PAGE_SIZE, PageUp((base + size) % U64) / PAGE_SIZE)
  }

  /** The region does not wrap: the loop visits exactly its whole pages. */
  lemma FreedPlain(total: nat, base: nat, size: nat, p: nat)
    requires base <= U64 - PAGE_SIZE && base + size < U64
    ensures p in FreedBy(total, base, size) <==> p < total && Inside(p, base, size)
  {
    PageUpWraps(base);
    assert Inside(p, base, size) <==> Between(p, PageEnd(base) / PAGE_SIZE, (base + size) / PAGE_SIZE);
  }

  /** Its end wraps: nothing is visited, though every page from its start on is inside. */
  lemma FreedNothing(total: nat, base: nat, size: nat, p: nat)
    requires base <= U64 - PAGE_SIZE && base + size >= U64 && size < U64 && p < total <= MAX_PAGES
    ensures p !in FreedBy(total, base, size) && (Inside(p, base, size) <==> base <= p * PAGE_SIZE)
  {
    PageUpWraps(base);
    assert (base + size) % U64 == base + size - U64;
  }

  /** Its start wraps: everything up to its end is visited, though no page is inside. */
  lemma FreedTooMuch(total: nat, base: nat, size: nat, p: nat)
    requires U64 - PAGE_SIZE < base < U64 && size < U64 && p < total <= MAX_PAGES
    ensures !Inside(p, base, size) && (p in FreedBy(total, base, size) <==> p < (base + size) % U64 / PAGE_SIZE)
  {
    PageUpWraps(base);
  }

  /** Marking a region free frees exactly the whole pages inside it, if and only if no end that matters wraps around. */
  lemma FreedExact(total: nat, base: nat, size: nat)
    requires base < U64 && size < U64 && total <= MAX_PAGES
    ensures (forall p: nat :: p < total ==> (p in FreedBy(total, base, size) <==> Inside(p, base, size))) <==>
      total == 0 || (if base > U64 - PAGE_SIZE then (base + size) % U64 < PAGE_SIZE
                     else base + size < U64 || base > (total - 1) * PAGE_SIZE)
  {
    hide FreedBy, Inside;
    if total > 0 {
      if base > U64 - PAGE_SIZE {
        forall p: nat | p < total { FreedTooMuch(total, base, size, p); }
        FreedTooMuch(total, base, size, 0);
      } else if base + size < U64 {
        forall p: nat | p < total { FreedPlain(total, base, size, p); }
      } else {
        forall p: nat | p < total { FreedNothing(total, base, size, p); }
        FreedNothing(total, base, size, total - 1);
      }
    }
  }

  lemma StartsBy(a: nat, p: nat)
    ensures a / PAGE_SIZE <= p <==> a < (p + 1) * PAGE_SIZE
  {}

  lemma EndsAfter(a: nat, p: nat)
    ensures p < PageEnd(a) / PAGE_SIZE <==> p * PAGE_SIZE < a
    ensures a <= U64 - PAGE_SIZE ==> PageEnd(a) < U64
  {}

  lemma UsedPlain(total: nat, base: nat, size: nat, p: nat)
    requires base + size <= U64 - PAGE_SIZE
    ensures p in UsedBy(total, base, size) <==> p < total && Touches(p, base, size)
  {
    hide PageUp, PageEnd;
    PageUpWraps(base + size);
    StartsBy(base, p);
    EndsAfter(base + size, p);
  }

  /** Its end wraps: at most the first page of the region is visited, though every page from there on touches it. */
  lemma UsedTooLittle(total: nat, base: nat, size: nat, p: nat)
    requires base < U64 && size < U64 && base + size > U64 - PAGE_SIZE && p < total <= MAX_PAGES
    ensures Touches(p, base, size) <==> p >= base / PAGE_SIZE
    ensures p in UsedBy(total, base, size) <==>
      p == base / PAGE_SIZE && base + size >= U64 && base + size - U64 > p * PAGE_SIZE
  {
    PageUpWraps((base + size) % U64);
  }

  /** Marking a region used takes exactly the pages that touch it, if and only if no end that matters wraps around. */
  lemma UsedExact(total: nat, base: nat, size: nat)
    requires base < U64 && size < U64 && total <= MAX_PAGES
    ensures (forall p: nat :: p < total ==> (p in UsedBy(total, base, size) <==> Touches(p, base, size))) <==>
      base / PAGE_SIZE >= total || base + size <= U64 - PAGE_SIZE ||
      (base / PAGE_SIZE == total - 1 && base + size >= U64 && base + size - U64 > (total - 1) * PAGE_SIZE)
  {
    hide UsedBy, Touches;
    if base + size <= U64 - PAGE_SIZE {
      forall p: nat | p < total { UsedPlain(total, base, size, p); }
    } else {
      forall p: nat | p < total { UsedTooLittle(total, base, size, p); }
      if base / PAGE_SIZE < total { UsedTooLittle(total, base, size, total - 1); }
    }
  }

  lemma {:induction false} ClearUpdate(bits: seq<bool>, lo: nat, hi: nat, i: nat, b: bool)
    requires lo <= hi <= |bits| && i < |bits|
    ensures Clear(bits[i := b], lo, hi) ==
      Clear(bits, lo, hi) + (if lo <= i < hi then (if bits[i] then 1 else 0) - (if b then 1 else 0) else 0)
    decreases hi
  {
    if lo < hi { ClearUpdate(bits, lo, hi - 1, i, b); }
  }

  /** A run of clear bits is counted. */
  lemma {:induction false} ClearBounds(bits: seq<bool>, lo: nat, hi: nat, at: nat, count: nat)
    requires lo <= hi <= |bits| && FreeRun(bits, lo, hi, at, count)
    ensures Clear(bits, lo, hi) >= count
    decreases hi
  {
    if at + count == hi {
      if count > 0 { ClearBounds(bits, lo, hi - 1, at, count - 1); }
    } else {
      ClearBounds(bits, lo, hi - 1, at, count);
    }
  }

  lemma {:induction false} ClearNone(bits: seq<bool>, lo: nat, hi: nat)
    requires lo <= hi <= |bits| && forall i :: lo <= i < hi ==> bits[i]
    ensures Clear(bits, lo, hi) == 0
    decreases hi
  {
    if lo < hi { ClearNone(bits, lo, hi - 1); }
  }

  class PhysMem {
    const bitmap: array<bool>
    const total: nat
    var zone: map<ZoneType, nat>
    var free: nat

    /** `pmm_init_bitmap`: every page starts as used. */
    constructor (pages: nat)
      ensures Valid() && fresh(bitmap) && total == (if pages > MAX_PAGES then MAX_PAGES else pages)
      ensures Free() == {}
    {
      bitmap := new bool[MAX_PAGES](_ => true);
      total := if pages > MAX_PAGES then MAX_PAGES else pages;
      zone, free := map[DMA := 0, Normal := 0, High := 0], 0;
      new;
      forall z: ZoneType
        ensures z in zone && Clear(bitmap[..], Start(z), End(z, total)) == 0
      {
        ClearNone(bitmap[..], Start(z), End(z, total));
        match z case DMA => case Normal => case High =>
      }
    }

    ghost predicate Shape()
      reads this
    {
      bitmap.Length == MAX_PAGES && total <= MAX_PAGES && zone.Keys == {DMA, Normal, High}
    }

    /** The counters count the clear bits. */
    ghost predicate Valid()
      reads this, bitmap
      ensures Valid() ==> Shape()
    {
      Shape() && (forall z: ZoneType :: z in zone && zone[z] == Clear(bitmap[..], Start(z), End(z, total))) &&
      free == zone[DMA] + zone[Normal] + zone[High]
    }

    ghost function Bits(): (b: seq<bool>)
      requires Shape()
      reads this, bitmap
      ensures |b| == MAX_PAGES
    {
      bitmap[..]
    }

    /** The free pages. */
    ghost function Free(): set<nat>
      requires Shape()
      reads this, bitmap
    {
      set i: nat | i < total && !bitmap[i]
    }

    /** `pfn_to_zone`; no zone from `total` on. */
    function ZoneOf(pfn: nat): (z: (bool, ZoneType))
      requires total <= MAX_PAGES
      ensures z.0 <==> pfn < total
      ensures z.0 ==> forall y: ZoneType :: Start(y) <= pfn < End(y, total) <==> y == z.1
    {
      if Start(DMA) <= pfn < End(DMA, total) then (true, DMA)
      else if Start(Normal) <= pfn < End(Normal, total) then (true, Normal)
      else if Start(High) <= pfn < End(High, total) then (true, High)
      else (false, DMA)
    }

    /** Clears the bit of a used page and counts it. */
    method Give(pfn: nat, z: ZoneType)
      requires Valid() && pfn < total && ZoneOf(pfn).1 == z && bitmap[pfn]
      modifies this, bitmap
      ensures Valid() && Bits() == old(Bits())[pfn := false] && Free() == old(Free()) + {pfn}
    {
      forall y: ZoneType { ClearUpdate(bitmap[..], Start(y), End(y, total), pfn, false); }
      bitmap[pfn] := false;
      zone := zone[z := zone[z] + 1];
      free := free + 1;
      assert bitmap[..] == old(bitmap[..])[pfn := false];
    }

    /** Sets the bit of a free page and counts it. */
    method Take(pfn: nat, z: ZoneType)
      requires Valid() && pfn < total && ZoneOf(pfn).1 == z && !bitmap[pfn]
      modifies this, bitmap
      ensures Valid() && Bits() == old(Bits())[pfn := true] && Free() == old(Free()) - {pfn}
    {
      ClearBounds(bitmap[..], Start(z), End(z, total), pfn, 1);
      forall y: ZoneType { ClearUpdate(bitmap[..], Start(y), End(y, total), pfn, true); }
      bitmap[pfn] := true;
      zone := zone[z := zone[z] - 1];
      free := free - 1;
      assert bitmap[..] == old(bitmap[..])[pfn := true];
    }

    /** `pmm_mark_region_free`, in 64-bit arithmetic. */
    method MarkRegionFree(base: nat, size: nat)
      requires Valid() && base < U64 && size < U64
      modifies this, bitmap
      ensures Valid()
      ensures Free() == old(Free()) + FreedBy(total, base, size)
    {
      hide PageUp;
      var pfn, end := PageUp(base) / PAGE_SIZE, (base + size) % U64 / PAGE_SIZE;
      ghost var first := pfn;
      if end <= pfn {
        return;
      }
      while pfn < end
        invariant Valid() && first <= pfn <= end
        invariant Free() == old(Free()) + PagesBelow(total, first, pfn)
      {
        var z := ZoneOf(pfn);
        if z.0 && bitmap[pfn] {
          Give(pfn, z.1);
        }
        pfn := pfn + 1;
      }
    }

    /** `pmm_mark_region_used`, in 64-bit arithmetic. */
    method MarkRegionUsed(base: nat, size: nat)
      requires Valid() && base < U64 && size < U64
      modifies this, bitmap
      ensures Valid()
      ensures Free() == old(Free()) - UsedBy(total, base, size)
    {
      hide PageUp;
      var pfn, end := base / PAGE_SIZE, PageUp((base + size) % U64) / PAGE_SIZE;
      ghost var first := pfn;
      while pfn < end
        invariant Valid() && first <= pfn && (pfn <= end || pfn == first)
        invariant Free() == old(Free()) - PagesBelow(total, first, pfn)
      {
        var z := ZoneOf(pfn);
        if z.0 && !bitmap[pfn] {
          Take(pfn, z.1);
        }
        pfn := pfn + 1;
      }
    }

    /** `bitmap_find_free`. */
    method FindFree(start: nat, end: nat) returns (r: int)
      requires end <= bitmap.Length
      ensures r >= 0 ==> LowestRun(bitmap[..], start, end, r, 1)
      ensures r < 0 ==> !HasRun(bitmap[..], start, end, 1)
    {
      ghost var bits := bitmap[..];
      assert forall b: nat :: FreeRun(bits, start, end, b, 1) ==> !bits[b];
      var i := start;
      while i < end
        invariant start <= i && forall j :: start <= j < i && j < end ==> bitmap[j]
      {
        if !bitmap[i] { return i; }
        i := i + 1;
      }
      return -1;
    }

    /** `bitmap_find_free_region`: the lowest run, if there is one and it is not empty. */
    method FindFreeRegion(start: nat, end: nat, count: nat) returns (r: int)
      requires end <= bitmap.Length
      ensures r >= 0 ==> count > 0 && LowestRun(bitmap[..], start, end, r, count)
      ensures r < 0 ==> count == 0 || !HasRun(bitmap[..], start, end, count)
    {
      var foundStart, foundCount := 0, 0;
      ghost var bits := bitmap[..];
      var i := start;
      while i < end
        invariant start <= i && (i <= end || i == start) && 0 <= foundCount
        invariant count > 0 ==> foundCount < count
        invariant foundCount > 0 ==> start <= foundStart && foundStart + foundCount == i
        invariant forall j :: i - foundCount <= j < i ==> !bits[j]
        invariant i - foundCount > start ==> bits[i - foundCount - 1]
        invariant foundCount <= i - start
        invariant count > 0 ==> forall b: nat :: b + count <= i ==> !FreeRun(bits, start, end, b, count)
      {
        if !bitmap[i] {
          if foundCount == 0 {
            foundStart := i;
          }
          foundCount := foundCount + 1;
          if foundCount == count {
            return foundStart;
          }
        } else {
          foundCount := 0;
        }
        i := i + 1;
      }
      return -1;
    }

    lemma FreePageIsRun(p: nat, z: ZoneType)
      requires Valid() && p in Free() && ZoneOf(p).1 == z
      ensures FreeRun(Bits(), Start(z), End(z, total), p, 1)
    {}

    /** A zone that has no run of one page has no free page; the lowest run is the lowest page. */
    lemma ZoneFree(z: ZoneType)
      requires Valid()
      ensures forall p :: p in Free() && ZoneOf(p).1 == z ==> HasRun(Bits(), Start(z), End(z, total), 1)
      ensures forall a: nat, p :: LowestRun(Bits(), Start(z), End(z, total), a, 1) && p in Free() && ZoneOf(p).1 == z ==> a <= p
      ensures forall a: nat :: FreeRun(Bits(), Start(z), End(z, total), a, 1) ==> a in Free() && ZoneOf(a).1 == z
    {
      forall p | p in Free() && ZoneOf(p).1 == z
        ensures FreeRun(Bits(), Start(z), End(z, total), p, 1)
      {
        FreePageIsRun(p, z);
      }
      forall a: nat | FreeRun(Bits(), Start(z), End(z, total), a, 1)
        ensures a in Free() && ZoneOf(a).1 == z
      {
        assert !Bits()[a];
      }
    }

    /** `pmm_alloc_page_zone`: the lowest free page of the zone; address 0 means failure. */
    method AllocPageZone(z: ZoneType) returns (phys: nat, ghost found: bool)
      requires Valid()
      modifies this, bitmap
      ensures Valid() && phys % PAGE_SIZE == 0
      ensures found ==> phys / PAGE_SIZE in old(Free()) && ZoneOf(phys / PAGE_SIZE).1 == z
      ensures found ==> forall p :: p in old(Free()) && ZoneOf(p).1 == z ==> phys / PAGE_SIZE <= p
      ensures found ==> Free() == old(Free()) - {phys / PAGE_SIZE}
      ensures !found ==> phys == 0 && Bits() == old(Bits()) && Free() == old(Free())
      ensures !found ==> forall p :: p in old(Free()) ==> ZoneOf(p).1 != z
    {
      phys, found := 0, false;
      ZoneFree(z);
      ghost var bits, lo, hi := bitmap[..], Start(z), End(z, total);
      if zone[z] == 0 {
        forall at: nat | FreeRun(bits, lo, hi, at, 1) ensures false { ClearBounds(bits, lo, hi, at, 1); }
        return;
      }
      var r := FindFree(Start(z), End(z, total));
      if r < 0 { return; }
      Take(r, z);
      phys, found := r * PAGE_SIZE, true;
    }

    /** `pmm_alloc_pages_zone`: the lowest free run of the zone. */
    method AllocPagesZone(count: nat, z: ZoneType) returns (phys: nat, ghost at: nat)
      requires Valid()
      modifies this, bitmap
      ensures Valid()
      ensures count > 0 && HasRun(old(Bits()), Start(z), End(z, total), count) ==>
        LowestRun(old(Bits()), Start(z), End(z, total), at, count) && phys == at * PAGE_SIZE &&
        Free() == old(Free()) - Pages(at, at + count)
      ensures count == 0 || !HasRun(old(Bits()), Start(z), End(z, total), count) ==>
        phys == 0 && Bits() == old(Bits()) && Free() == old(Free())
    {
      phys, at := 0, 0;
      ghost var bits, lo, hi := bitmap[..], Start(z), End(z, total);
      if zone[z] < count {
        forall b: nat | FreeRun(bits, lo, hi, b, count) ensures false { ClearBounds(bits, lo, hi, b, count); }
        return;
      }
      var r := FindFreeRegion(Start(z), End(z, total), count);
      if r < 0 { return; }
      TakeRun(r, count, z);
      phys, at := r * PAGE_SIZE, r;
    }

    /** Takes a run of free pages, one after the other. */
    method TakeRun(r: nat, count: nat, z: ZoneType)
      requires Valid() && FreeRun(Bits(), Start(z), End(z, total), r, count)
      modifies this, bitmap
      ensures Valid() && Free() == old(Free()) - Pages(r, r + count)
    {
      ghost var lo, hi := Start(z), End(z, total);
      for i := 0 to count
        invariant Valid() && Free() == old(Free()) - Pages(r, r + i)
        invariant FreeRun(bitmap[..], lo, hi, r + i, count - i)
      {
        Take(r + i, z);
      }
    }

    /**
     * `pmm_alloc_page`. While page 0 is used it fails exactly when nothing is
     * free; a free page 0 would be taken and lost as a failure.
     */
    method AllocPage() returns (phys: nat)
      requires Valid()
      modifies this, bitmap
      ensures Valid() && phys % PAGE_SIZE == 0
      ensures phys != 0 ==> phys / PAGE_SIZE in old(Free()) && Free() == old(Free()) - {phys / PAGE_SIZE}
      ensures phys != 0 ==> forall q :: q in old(Free()) ==> Preferred(phys / PAGE_SIZE, q)
      ensures phys == 0 ==> Free() == old(Free()) - {0} && (0 !in old(Free()) ==> old(Free()) == {})
      ensures phys == 0 ==> forall q :: q in old(Free()) ==> Preferred(0, q)
    {
      ghost var found;
      phys, found := AllocPageZone(Normal);
      if phys != 0 { return; }
      phys, found := AllocPageZone(High);
      if phys != 0 { return; }
      phys, found := AllocPageZone(DMA);
    }

    /** `pmm_alloc_pages`. */
    method AllocPages(count: nat) returns (phys: nat, ghost z: ZoneType)
      requires Valid()
      modifies this, bitmap
      ensures Valid() && phys % PAGE_SIZE == 0
      ensures phys != 0 ==> count > 0 && Free() == old(Free()) - Pages(phys / PAGE_SIZE, phys / PAGE_SIZE + count)
      ensures phys != 0 ==> LowestRun(old(Bits()), Start(z), End(z, total), phys / PAGE_SIZE, count)
      ensures phys != 0 ==> Pages(phys / PAGE_SIZE, phys / PAGE_SIZE + count) <= old(Free())
      ensures Free() <= old(Free())
      ensures phys == 0 && 0 !in old(Free()) ==>
        Free() == old(Free()) && (count == 0 || forall y: ZoneType :: !HasRun(old(Bits()), Start(y), End(y, total), count))
    {
      ghost var at;
      z := Normal;
      phys, at := AllocPagesZone(count, Normal);
      if phys != 0 { return; }
      z := High;
      phys, at := AllocPagesZone(count, High);
      if phys != 0 { return; }
      z := DMA;
      phys, at := AllocPagesZone(count, DMA);
    }

    /** `pmm_free_page`: freeing a page twice, or a page that does not exist, changes nothing. */
    method FreePage(phys: nat)
      requires Valid()
      modifies this, bitmap
      ensures Valid()
      ensures Free() == old(Free()) + if phys / PAGE_SIZE < total then {phys / PAGE_SIZE} else {}
      ensures phys / PAGE_SIZE >= total || phys / PAGE_SIZE in old(Free()) ==> Bits() == old(Bits()) && zone == old(zone) && free == old(free)
    {
      var pfn := phys / PAGE_SIZE;
      var z := ZoneOf(pfn);
      if !z.0 { return; }
      if !bitmap[pfn] { return; }
      Give(pfn, z.1);
    }

    /** `pmm_free_pages`. */
    method FreePages(phys: nat, count: nat)
      requires Valid()
      modifies this, bitmap
      ensures Valid()
      ensures Free() == old(Free()) + PagesBelow(total, phys / PAGE_SIZE, phys / PAGE_SIZE + count)
    {
      var i := 0;
      while i < count
        invariant i <= count && Valid()
        invariant Free() == old(Free()) + PagesBelow(total, phys / PAGE_SIZE, phys / PAGE_SIZE + i)
      {
        assert (phys + i * PAGE_SIZE) / PAGE_SIZE == phys / PAGE_SIZE + i;
        FreePage(phys + i * PAGE_SIZE);
        i := i + 1;
      }
    }
  }
}
