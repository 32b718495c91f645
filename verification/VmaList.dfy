/**
 * The doubly linked, address-sorted list of virtual memory areas.
 */
module VmaList {
  import opened Common
  import opened Areas

  /** `struct vm_area`: the description of the area, and its links. */
  class VmArea {
    var area: Area
    var next: VmArea?
    var prev: VmArea?

    /** `vmm_create_vma`, with the fields its callers set next. */
    constructor (area: Area)
      ensures this.area == area && next == null && prev == null
    {
      this.area, next, prev := area, null, null;
    }
  }

  ghost function At(nodes: seq<VmArea>, i: int): VmArea?
  {
    if 0 <= i < |nodes| then nodes[i] else null
  }

  ghost function NodeSet(nodes: seq<VmArea>): set<VmArea> { set n | n in nodes }

  ghost predicate Distinct(nodes: seq<VmArea>)
  {
    forall i, j :: 0 <= i < j < |nodes| ==> nodes[i] != nodes[j]
  }

  ghost predicate NextLinks(nodes: seq<VmArea>)
    reads NodeSet(nodes)`next
  {
    (forall i {:trigger nodes[i].next} :: 0 <= i < |nodes| - 1 ==> nodes[i].next == nodes[i + 1]) &&
    (nodes != [] ==> nodes[|nodes| - 1].next == null)
  }

  ghost predicate PrevLinks(nodes: seq<VmArea>)
    reads NodeSet(nodes)`prev
  {
    (forall i {:trigger nodes[i].prev} :: 1 <= i < |nodes| ==> nodes[i].prev == nodes[i - 1]) &&
    (nodes != [] ==> nodes[0].prev == null)
  }

  ghost function Inserted<A>(s: seq<A>, k: nat, a: A): seq<A>
    requires k <= |s|
  {
    s[..k] + [a] + s[k..]
  }

  lemma InsertedDistinct(nodes: seq<VmArea>, k: nat, v: VmArea)
    requires Distinct(nodes) && k <= |nodes| && v !in nodes
    ensures Distinct(Inserted(nodes, k, v))
  {}

  lemma InsertedSet(nodes: seq<VmArea>, k: nat, v: VmArea)
    requires k <= |nodes|
    ensures NodeSet(Inserted(nodes, k, v)) == NodeSet(nodes) + {v} && |Inserted(nodes, k, v)| == |nodes| + 1
  {
    var s := Inserted(nodes, k, v);
    assert s[k] == v && nodes == nodes[..k] + nodes[k..];
  }

  ghost predicate Describes(nodes: seq<VmArea>, s: seq<Area>)
    reads NodeSet(nodes)`area
  {
    |nodes| == |s| && forall i {:trigger nodes[i]} {:trigger s[i]} :: 0 <= i < |nodes| ==> nodes[i].area == s[i]
  }

  /** The links and descriptions of the nodes are those of the list. */
  ghost predicate Linked(nodes: seq<VmArea>, s: seq<Area>)
    reads NodeSet(nodes)
  {
    NextLinks(nodes) && PrevLinks(nodes) && Describes(nodes, s)
  }

  ghost function Deleted<A>(s: seq<A>, k: nat): seq<A>
    requires k < |s|
  {
    s[..k] + s[k + 1..]
  }

  lemma InsertedDescribes(nodes: seq<VmArea>, s: seq<Area>, k: nat, v: VmArea)
    requires Describes(nodes, s) && k <= |nodes|
    ensures Describes(Inserted(nodes, k, v), Inserted(s, k, v.area))
  {}

  lemma DeletedKeeps(nodes: seq<VmArea>, s: seq<Area>, k: nat)
    requires Distinct(nodes) && Describes(nodes, s) && k < |nodes|
    ensures Distinct(Deleted(nodes, k)) && Describes(Deleted(nodes, k), Deleted(s, k)) && nodes[k] !in Deleted(nodes, k)
  {}

  /** The list part of `struct address_space`. */
  class List {
    var head: VmArea?
    var count: nat
    ghost var nodes: seq<VmArea>
    ghost var contents: seq<Area>
    ghost var repr: set<VmArea>

    constructor ()
      ensures Valid() && contents == [] && repr == {}
    {
      head, count, nodes, contents, repr := null, 0, [], [], {};
    }

    ghost predicate Valid()
      reads this, repr
      ensures Valid() ==> |contents| == |nodes|
    {
      NodeSet(nodes) <= repr && head == At(nodes, 0) && count == |nodes| && Distinct(nodes) && Linked(nodes, contents)
    }

    /** What the fields of the node at position `i` say. */
    lemma Step(i: nat)
      requires Valid() && i < |nodes|
      ensures |contents| == |nodes| && nodes[i] in repr && nodes[i].next == At(nodes, i + 1) && nodes[i].area == contents[i]
    {}

    /** `vmm_find_vma`. */
    method Find(addr: nat) returns (v: VmArea?, ghost i: nat)
      requires Valid() && Sorted(contents)
      ensures v != null ==> i < |nodes| && nodes[i] == v && Covers(v.area, addr)
      ensures v == null <==> Lookup(contents, addr).None?
      ensures v != null ==> Lookup(contents, addr) == Some(BackingAt(v.area, addr))
    {
      v, i := head, 0;
      LookupSome(contents, addr);
      while v != null
        invariant i <= |nodes| && v == At(nodes, i)
        invariant forall j :: 0 <= j < i ==> !Covers(contents[j], addr)
        decreases |nodes| - i
      {
        if addr >= v.area.start && addr < v.area.end {
          LookupAt(contents, addr, i);
          return;
        }
        if addr < v.area.start {
          break;
        }
        v, i := v.next, i + 1;
      }
      v := null;
    }

    /** `vmm_find_vma_intersection`. */
    method FindIntersection(lo: nat, hi: nat) returns (v: VmArea?, ghost i: nat)
      requires Valid() && Sorted(contents)
      ensures v != null ==> i < |nodes| && nodes[i] == v && Meets(v.area, lo, hi)
      ensures v != null ==> forall j :: 0 <= j < i ==> !Meets(contents[j], lo, hi)
      ensures v == null <==> !Intersects(contents, lo, hi)
    {
      v, i := head, 0;
      while v != null
        invariant i <= |nodes| && v == At(nodes, i)
        invariant forall j :: 0 <= j < i ==> !Meets(contents[j], lo, hi)
        decreases |nodes| - i
      {
        if v.area.start < hi && v.area.end > lo {
          assert Meets(contents[i], lo, hi);
          return;
        }
        if v.area.start >= hi {
          break;
        }
        v, i := v.next, i + 1;
      }
      v := null;
    }

    /** The pointer writes of an insertion at position `k`. */
    method SetLinks(prev: VmArea?, v: VmArea, curr: VmArea?, ghost k: nat)
      requires Distinct(nodes) && NextLinks(nodes) && PrevLinks(nodes) && head == At(nodes, 0)
      requires v !in nodes && k <= |nodes| && prev == At(nodes, k - 1) && curr == At(nodes, k)
      modifies this`head, NodeSet(nodes)`next, NodeSet(nodes)`prev, v`next, v`prev
      ensures NextLinks(Inserted(nodes, k, v)) && PrevLinks(Inserted(nodes, k, v)) && head == At(Inserted(nodes, k, v), 0)
    {
      v.prev, v.next := prev, curr;
      if prev != null {
        prev.next := v;
      } else {
        head := v;
      }
      if curr != null {
        curr.prev := v;
      }
    }

    method Relink(prev: VmArea?, v: VmArea, curr: VmArea?, ghost k: nat)
      requires Valid() && v !in nodes && k <= |nodes| && prev == At(nodes, k - 1) && curr == At(nodes, k)
      modifies this`head, NodeSet(nodes)`next, NodeSet(nodes)`prev, v`next, v`prev
      ensures Linked(Inserted(nodes, k, v), Inserted(contents, k, v.area)) && head == At(Inserted(nodes, k, v), 0)
    {
      hide NextLinks, PrevLinks, Distinct, Describes;
      SetLinks(prev, v, curr, k);
      InsertedDescribes(nodes, contents, k, v);
    }

    method LinkIn(prev: VmArea?, v: VmArea, curr: VmArea?, ghost k: nat)
      requires Valid() && v !in nodes && k <= |nodes| && prev == At(nodes, k - 1) && curr == At(nodes, k)
      modifies this, NodeSet(nodes)`next, NodeSet(nodes)`prev, v`next, v`prev
      ensures Valid() && nodes == Inserted(old(nodes), k, v) && contents == Inserted(old(contents), k, v.area)
      ensures repr == old(repr) + {v}
    {
      hide Linked, Distinct;
      InsertedDistinct(nodes, k, v);
      InsertedSet(nodes, k, v);
      Relink(prev, v, curr, k);
      count := count + 1;
      nodes, contents, repr := Inserted(nodes, k, v), Inserted(contents, k, v.area), repr + {v};
    }

    /** `vmm_insert_vma`. */
    method Insert(v: VmArea) returns (ok: bool, ghost k: nat)
      requires Valid() && Sorted(contents) && v !in nodes && Aligned(v.area)
      modifies this, NodeSet(nodes)`next, NodeSet(nodes)`prev, v`next, v`prev
      ensures Valid() && k <= |old(nodes)| && Slot(old(contents), v.area, k) && (ok <==> Room(old(contents), v.area, k))
      ensures ok <==> !Blocked(old(contents), v.area)
      ensures ok ==> nodes == Inserted(old(nodes), k, v) && contents == Inserted(old(contents), k, v.area) && Sorted(contents)
      ensures !ok ==> nodes == old(nodes) && contents == old(contents)
      ensures repr == if ok then old(repr) + {v} else old(repr)
    {
      var prev, curr := null, head;
      ghost var s := contents;
      k := 0;
      while curr != null && curr.area.start < v.area.start
        invariant k <= |nodes| && curr == At(nodes, k) && prev == At(nodes, k - 1)
        invariant forall j :: 0 <= j < k ==> s[j].start < v.area.start
        decreases |nodes| - k
      {
        prev, curr, k := curr, curr.next, k + 1;
      }
      if Room(s, v.area, k) { SlotSorted(s, v.area, k); }
      RoomIsUnblocked(s, v.area, k);
      if curr != null && curr.area.start < v.area.end {
        return false, k;
      }
      if prev != null && prev.area.end > v.area.start {
        return false, k;
      }
      LinkIn(prev, v, curr, k);
      ok := true;
    }

    /** Rewrites the description of the area at position `k`. */
    method Set(v: VmArea, area: Area, ghost k: nat)
      requires Valid() && k < |nodes| && nodes[k] == v
      modifies this`contents, v`area
      ensures Valid() && contents == old(contents)[k := area]
    {
      v.area := area;
      contents := contents[k := area];
    }

    /** The pointer writes of a removal. */
    method SkipLinks(v: VmArea, ghost k: nat)
      requires Distinct(nodes) && NextLinks(nodes) && PrevLinks(nodes) && head == At(nodes, 0)
      requires k < |nodes| && nodes[k] == v
      modifies this`head, NodeSet(nodes)`next, NodeSet(nodes)`prev
      ensures NextLinks(Deleted(nodes, k)) && PrevLinks(Deleted(nodes, k)) && head == At(Deleted(nodes, k), 0)
    {
      if v.prev != null {
        v.prev.next := v.next;
      } else {
        head := v.next;
      }
      if v.next != null {
        v.next.prev := v.prev;
      }
    }

    method Unlink(v: VmArea, ghost k: nat)
      requires Valid() && k < |nodes| && nodes[k] == v
      modifies this`head, NodeSet(nodes)`next, NodeSet(nodes)`prev
      ensures Linked(Deleted(nodes, k), Deleted(contents, k)) && head == At(Deleted(nodes, k), 0)
    {
      hide NextLinks, PrevLinks, Distinct, Describes;
      SkipLinks(v, k);
      DeletedKeeps(nodes, contents, k);
    }

    /** `vmm_remove_vma`. */
    method Remove(v: VmArea, ghost k: nat)
      requires Valid() && k < |nodes| && nodes[k] == v
      modifies this, NodeSet(nodes)`next, NodeSet(nodes)`prev
      ensures Valid() && nodes == Deleted(old(nodes), k) && contents == Deleted(old(contents), k) && repr == old(repr)
    {
      hide Linked, Distinct;
      DeletedFewer(nodes, contents, k);
      Unlink(v, k);
      count := count - 1;
      nodes, contents := Deleted(nodes, k), Deleted(contents, k);
    }
  }

  lemma DeletedFewer(nodes: seq<VmArea>, s: seq<Area>, k: nat)
    requires Distinct(nodes) && |nodes| == |s| && k < |nodes|
    ensures Distinct(Deleted(nodes, k)) && NodeSet(Deleted(nodes, k)) <= NodeSet(nodes) && |Deleted(nodes, k)| == |nodes| - 1
  {}

  /** What the two overlap checks at the insertion point decide. */
  lemma SlotSorted(s: seq<Area>, v: Area, k: nat)
    requires Sorted(s) && Aligned(v) && Slot(s, v, k) && Room(s, v, k)
    ensures Sorted(Inserted(s, k, v))
  {
    assert Between(s[..k], 0, v.start);
    assert Between(s[k..], v.end, U64);
    SortedAppend(s[..k], [v], v.start);
    SortedAppend(s[..k] + [v], s[k..], v.end);
  }

  lemma {:induction false} LookupAt(s: seq<Area>, a: nat, i: nat)
    requires i < |s| && Covers(s[i], a) && forall j :: 0 <= j < i ==> !Covers(s[j], a)
    ensures Lookup(s, a) == Some(BackingAt(s[i], a))
  {
    if i > 0 {
      assert s[1..][i - 1] == s[i];
      LookupAt(s[1..], a, i - 1);
    }
  }
}
