/**
 * What every run of the block cache keeps, stated on the list of blocks that
 * the cache refines.
 */
module LruRuns {
  import opened Common
  import opened Lists
  import opened RbShape
  import opened LruTree
  import opened BlockCache

  datatype Op =
    | Use(num: nat, now: nat)
    | Store(num: nat, entry: Entry)
    | StoreFails
    | Forget(num: nat)

  ghost predicate UniqueNumbers(s: seq<Block>)
  {
    forall i, j :: 0 <= i < j < |s| ==> s[i].num != s[j].num
  }

  ghost function Position(s: seq<Block>, num: nat): (i: nat)
    requires Has(s, num)
    ensures i < |s| && s[i].num == num
  {
    var i :| 0 <= i < |s| && s[i].num == num; i
  }

  ghost function Apply(s: seq<Block>, op: Op, max: nat): seq<Block>
    requires max >= 1
  {
    match op
    case Use(num, now) =>
      if Has(s, num) then
        var i := Position(s, num);
        [Item(num, s[i].entry.(lastAccess := now))] + Removed(s, i)
      else s
    case Store(num, e) => [Item(num, e)] + Recent(s, max - 1)
    case StoreFails => Recent(s, max - 1)
    case Forget(num) => if Has(s, num) then Removed(s, Position(s, num)) else s
  }

  ghost function Run(ops: seq<Op>, max: nat): seq<Block>
    requires max >= 1
  {
    if ops == [] then [] else Apply(Run(ops[..|ops| - 1], max), ops[|ops| - 1], max)
  }

  /** The data last stored under each number. */
  ghost function Stored(ops: seq<Op>): map<nat, Bytes>
  {
    if ops == [] then map[]
    else
      var last := ops[|ops| - 1];
      var before := Stored(ops[..|ops| - 1]);
      if last.Store? then before[last.num := last.entry.data] else before
  }

  /** No block is stored while an old copy of it survives the eviction. */
  ghost predicate Careful(ops: seq<Op>, max: nat)
    requires max >= 1
  {
    ops == [] ||
    var before := ops[..|ops| - 1];
    var last := ops[|ops| - 1];
    Careful(before, max) && (last.Store? ==> !Has(Recent(Run(before, max), max - 1), last.num))
  }

  ghost predicate Coherent(s: seq<Block>, stored: map<nat, Bytes>)
  {
    forall i :: 0 <= i < |s| ==> s[i].num in stored && stored[s[i].num] == s[i].entry.data
  }

  /** With unique numbers, a hit at any position is the hit of `Apply`. */
  lemma TouchedIsUse(s: seq<Block>, at: nat, now: nat, after: seq<Block>, max: nat)
    requires max >= 1 && UniqueNumbers(s) && Touched(s, at, now, after)
    ensures after == Apply(s, Use(s[at].num, now), max)
  {
    var i := Position(s, s[at].num);
    assert i == at;
  }

  /** With unique numbers, what the cache removes is what `Apply` forgets. */
  lemma RemovedIsForget(s: seq<Block>, at: nat, max: nat)
    requires max >= 1 && UniqueNumbers(s) && at < |s|
    ensures Removed(s, at) == Apply(s, Forget(s[at].num), max)
  {
    var i := Position(s, s[at].num);
    assert i == at;
  }

  lemma RemovedKeeps(s: seq<Block>, i: nat, stored: map<nat, Bytes>)
    requires i < |s|
    ensures UniqueNumbers(s) ==> UniqueNumbers(Removed(s, i)) && !Has(Removed(s, i), s[i].num)
    ensures Coherent(s, stored) ==> Coherent(Removed(s, i), stored)
  {
    var r := Removed(s, i);
    assert forall j :: 0 <= j < |r| ==> r[j] == s[if j < i then j else j + 1];
  }

  /** Storing keeps the numbers unique exactly when no copy survives. */
  lemma StoreUnique(s: seq<Block>, num: nat, e: Entry, max: nat)
    requires max >= 1 && UniqueNumbers(s)
    ensures UniqueNumbers(Apply(s, Store(num, e), max)) <==> !Has(Recent(s, max - 1), num)
  {
    var r := Recent(s, max - 1);
    var t := [Item(num, e)] + r;
    assert forall j :: 0 <= j < |r| ==> t[j + 1] == r[j];
    if Has(r, num) {
      var j :| 0 <= j < |r| && r[j].num == num;
      assert t[0].num == t[j + 1].num;
    }
  }

  lemma StoreCoherent(s: seq<Block>, num: nat, e: Entry, max: nat, stored: map<nat, Bytes>)
    requires max >= 1 && Coherent(s, stored) && !Has(Recent(s, max - 1), num)
    ensures Coherent(Apply(s, Store(num, e), max), stored[num := e.data])
  {
    var r := Recent(s, max - 1);
    assert forall j :: 0 <= j < |r| ==> r[j] == s[j] && r[j].num != num;
  }

  /**
   * After any careful run the cache holds at most `max` blocks, each number
   * once, each with the data last stored under it.
   */
  lemma {:induction false} RunCoherent(ops: seq<Op>, max: nat)
    requires max >= 1 && Careful(ops, max)
    ensures |Run(ops, max)| <= max && UniqueNumbers(Run(ops, max)) && Coherent(Run(ops, max), Stored(ops))
  {
    if ops != [] {
      var before, last := ops[..|ops| - 1], ops[|ops| - 1];
      RunCoherent(before, max);
      var s := Run(before, max);
      match last
      case Use(num, now) =>
        if Has(s, num) {
          var i := Position(s, num);
          RemovedKeeps(s, i, Stored(ops));
          assert Run(ops, max) == [Item(num, s[i].entry.(lastAccess := now))] + Removed(s, i);
        }
      case Store(num, e) =>
        StoreUnique(s, num, e, max);
        StoreCoherent(s, num, e, max, Stored(before));
      case StoreFails =>
      case Forget(num) =>
        if Has(s, num) { RemovedKeeps(s, Position(s, num), Stored(ops)); }
    }
  }

  /** One call of the cache, as one step of a run. */
  method Call(c: Cache, op: Op, ghost before: seq<Op>)
    requires c.Valid() && c.store.maxEntries >= 1 && Careful(before, c.store.maxEntries)
    requires c.Contents() == Run(before, c.store.maxEntries)
    modifies c, c.store, c.store.index, c.store.index.root, c.store.index.root.repr
    ensures c.Valid() && fresh(c.store.index.root.repr - old(c.store.index.root.repr))
    ensures c.Contents() == Run(before + [op], c.store.maxEntries)
  {
    hide Careful, Run, Cache.Valid, Coherent, UniqueNumbers, Removed;
    RunCoherent(before, c.store.maxEntries);
    RunSnoc(before, op, c.store.maxEntries);
    ghost var s, max := c.Contents(), c.store.maxEntries;
    match op
    case Use(num, now) =>
      var r, at := c.Get(num, now);
      if r.Some? { TouchedIsUse(s, at, now, c.Contents(), max); }
    case Store(num, e) =>
      var ok := c.Put(num, e.data, e.dirty, e.lastAccess, true, true);
    case StoreFails =>
      var ok := c.Put(0, [], false, 0, false, false);
    case Forget(num) =>
      var at := c.Invalidate(num);
      if Has(s, num) { RemovedIsForget(s, at, max); }
  }

  lemma RunSnoc(before: seq<Op>, op: Op, max: nat)
    requires max >= 1
    ensures Run(before + [op], max) == Apply(Run(before, max), op, max)
  {
    assert (before + [op])[..|before|] == before;
  }

  lemma {:induction false} CarefulPrefix(ops: seq<Op>, max: nat, n: nat)
    requires max >= 1 && Careful(ops, max) && n <= |ops|
    ensures Careful(ops[..n], max)
  {
    if n < |ops| {
      CarefulPrefix(ops[..|ops| - 1], max, n);
      assert ops[..|ops| - 1][..n] == ops[..n];
    } else {
      assert ops[..n] == ops;
    }
  }

  /** The cache itself, through any careful run from its creation: a cached block is what was last stored under its number. */
  method Drive(ops: seq<Op>, max: nat, blockSize: nat) returns (c: Cache)
    requires max >= 1 && Careful(ops, max)
    ensures fresh(c) && c.Valid() && c.store.maxEntries == max && c.Contents() == Run(ops, max)
    ensures |c.Contents()| <= max && UniqueNumbers(c.Contents()) && Coherent(c.Contents(), Stored(ops))
  {
    c := new Cache(max, blockSize);
    for n := 0 to |ops|
      invariant fresh(c) && fresh(c.store) && fresh(c.store.index) && fresh(c.store.index.root) && fresh(c.store.index.root.repr)
      invariant c.Valid() && c.store.maxEntries == max && c.Contents() == Run(ops[..n], max)
    {
      hide Careful, Run, Cache.Valid, Coherent, UniqueNumbers;
      CarefulPrefix(ops, max, n);
      Call(c, ops[n], ops[..n]);
      assert ops[..n] + [ops[n]] == ops[..n + 1];
    }
    assert ops[..|ops|] == ops;
    RunCoherent(ops, max);
  }

  /** Storing a cached number again leaves a stale copy behind. */
  lemma StoreTwice(a: Entry, b: Entry)
    requires a.data != b.data
    ensures var ops := [Store(7, a), Store(7, b)];
      !Careful(ops, 2) && !UniqueNumbers(Run(ops, 2)) && !Coherent(Run(ops, 2), Stored(ops))
  {
    var ops := [Store(7, a), Store(7, b)];
    assert ops[..1] == [Store(7, a)] && ops[..1][..0] == [];
    assert Run(ops[..1], 2) == [Item(7, a)];
    assert Run(ops, 2) == [Item(7, b), Item(7, a)];
    assert Recent(Run(ops[..1], 2), 1)[0].num == 7;
    assert Stored(ops)[7] == b.data && Run(ops, 2)[1].entry.data == a.data;
    assert Run(ops, 2)[0].num == Run(ops, 2)[1].num;
  }

  /** One access of a client: use the block, and store it after a miss. */
  ghost function Access(s: seq<nat>, num: nat, max: nat): seq<nat>
    requires max >= 1
  {
    if num in s then [num] + Without(s, num)
    else [num] + (if |s| < max then s else s[..max - 1])
  }

  ghost function Numbers(s: seq<Block>): seq<nat>
  {
    seq(|s|, i requires 0 <= i < |s| => s[i].num)
  }

  lemma HitNumbers(s: seq<Block>, i: nat)
    requires UniqueNumbers(s) && i < |s|
    ensures s[i].num in Numbers(s) && Numbers(Removed(s, i)) == Without(Numbers(s), s[i].num)
  {
    var num := s[i].num;
    var a, b := Numbers(s)[..i], Numbers(s)[i + 1..];
    assert Numbers(s)[i] == num && Numbers(s) == a + [num] + b;
    WithoutMiddle(a, num, b);
    assert Numbers(Removed(s, i)) == a + b;
  }

  lemma ConsNumbers(x: Block, s: seq<Block>)
    ensures Numbers([x] + s) == [x.num] + Numbers(s)
  {
  }

  /** An access is what the cache does for a use, or for the store after a miss. */
  lemma AccessIsUseOrStore(s: seq<Block>, num: nat, now: nat, e: Entry, max: nat)
    requires max >= 1 && UniqueNumbers(s) && |s| <= max
    ensures Access(Numbers(s), num, max) == Numbers(Apply(s, if Has(s, num) then Use(num, now) else Store(num, e), max))
  {
    if Has(s, num) {
      var i := Position(s, num);
      HitNumbers(s, i);
      ConsNumbers(Item(num, s[i].entry.(lastAccess := now)), Removed(s, i));
    } else {
      assert num !in Numbers(s);
      ConsNumbers(Item(num, e), Recent(s, max - 1));
      assert Numbers(Recent(s, max - 1)) == if |s| < max then Numbers(s) else Numbers(s)[..max - 1];
    }
  }

  ghost function Accesses(trace: seq<nat>, max: nat): seq<nat>
    requires max >= 1
  {
    if trace == [] then [] else Access(Accesses(trace[..|trace| - 1], max), trace[|trace| - 1], max)
  }

  ghost function First(s: seq<nat>, n: nat): seq<nat>
  {
    if |s| <= n then s else s[..n]
  }

  lemma {:induction false} WithoutLength(s: seq<nat>, k: nat)
    ensures |Without(s, k)| == if k in s then |s| - 1 else |s|
  {
    if s != [] && s[0] != k { WithoutLength(s[1..], k); }
  }

  lemma FirstOfCons(a: nat, s: seq<nat>, m: nat)
    requires m >= 1
    ensures First([a] + s, m) == [a] + First(s, m - 1)
  {}

  lemma {:induction false} WithoutFirst(s: seq<nat>, k: nat, m: nat)
    requires k in s && 1 <= m
    ensures k in First(s, m) ==> First(Without(s, k), m - 1) == Without(First(s, m), k)
    ensures k !in First(s, m) ==> First(Without(s, k), m - 1) == First(s, m - 1)
    decreases |s|
  {
    WithoutLength(s, k);
    assert s == [s[0]] + s[1..];
    FirstOfCons(s[0], s[1..], m);
    if s[0] != k && m > 1 {
      WithoutFirst(s[1..], k, m - 1);
      FirstOfCons(s[0], Without(s[1..], k), m - 1);
      FirstOfCons(s[0], s[1..], m - 1);
    }
  }

  lemma AccessPrefix(s: seq<nat>, k: nat, m: nat, n: nat)
    requires 1 <= m <= n && |s| <= n
    ensures Access(First(s, m), k, m) == First(Access(s, k, n), m) && |Access(s, k, n)| <= n
  {
    WithoutLength(s, k);
    var rest := if k in s then Without(s, k) else if |s| < n then s else s[..n - 1];
    FirstOfCons(k, rest, m);
    if k in s {
      WithoutFirst(s, k, m);
    }
  }

  /**
   * A smaller cache holds, in the same order, exactly the most recent part of
   * what a larger one holds after the same accesses: growing the cache never
   * turns a hit into a miss.
   */
  lemma {:induction false} SmallerIsPrefix(trace: seq<nat>, m: nat, n: nat)
    requires 1 <= m <= n
    ensures Accesses(trace, m) == First(Accesses(trace, n), m) && |Accesses(trace, n)| <= n
  {
    if trace != [] {
      var before := trace[..|trace| - 1];
      SmallerIsPrefix(before, m, n);
      AccessPrefix(Accesses(before, n), trace[|trace| - 1], m, n);
    }
  }
}
