/** Packed relative relocations (DT_RELR of the ELF gABI). */
module Relr {
  import opened Common
  import opened UserMemory

  /** The places a bitmap names: one word per bit from `at`. */
  ghost function Bits(bitmap: nat, at: nat): seq<nat>
    decreases bitmap
  {
    if bitmap == 0 then [] else (if bitmap % 2 == 1 then [at] else []) + Bits(bitmap / 2, Added(at, 8))
  }

  /** The places a packed table names; none when it begins with a bitmap. */
  ghost function Places(table: seq<nat>, bias: nat, at: Option<nat>): Option<seq<nat>>
  {
    if table == [] then Some([])
    else if table[0] % 2 == 0 then
      var addr := Added(table[0], bias);
      Prepend([addr], Places(table[1..], bias, Some(Added(addr, 8))))
    else if at.None? then None
    else Prepend(Bits(table[0] / 2, at.value), Places(table[1..], bias, Some(Added(at.value, 63 * 8))))
  }

  ghost function Prepend(a: seq<nat>, b: Option<seq<nat>>): Option<seq<nat>>
  {
    if b.None? then None else Some(a + b.value)
  }

  /** 64-bit addition. */
  function Added(v: nat, bias: nat): (r: nat)
    ensures r < U64 && (v < U64 && bias < U64 ==> r == v + bias || r == v + bias - U64)
  {
    (v + bias) % U64
  }

  ghost predicate AllMapped(m: Flat, places: seq<nat>)
  {
    forall i :: 0 <= i < |places| ==> Mapped(m, places[i], 8)
  }

  /** Plain relative relocation: `bias` is added to the word at each place, one after the other. */
  ghost function Relocated(m: Flat, places: seq<nat>, bias: nat): Flat
    requires AllMapped(m, places)
    decreases |places|
  {
    if places == [] then m
    else
      var m' := PutWord(m, places[0], Added(Word(m, places[0]), bias));
      SameDomain(m, places[0], Added(Word(m, places[0]), bias), places[1..]);
      Relocated(m', places[1..], bias)
  }

  lemma SameDomain(m: Flat, a: nat, v: nat, places: seq<nat>)
    requires Mapped(m, a, 8) && AllMapped(m, places)
    ensures AllMapped(PutWord(m, a, v), places) && PutWord(m, a, v).Keys == m.Keys
  {
    assert forall i :: 0 <= i < |places| ==> Mapped(m, places[i], 8);
  }

  lemma {:induction false} RelocatedKeys(m: Flat, places: seq<nat>, bias: nat)
    requires AllMapped(m, places)
    ensures Relocated(m, places, bias).Keys == m.Keys
    decreases |places|
  {
    if places != [] {
      var v := Added(Word(m, places[0]), bias);
      SameDomain(m, places[0], v, places[1..]);
      RelocatedKeys(PutWord(m, places[0], v), places[1..], bias);
    }
  }

  ghost predicate Apart(places: seq<nat>, a: nat, n: nat)
  {
    forall i :: 0 <= i < |places| ==> places[i] + 8 <= a || a + n <= places[i]
  }

  /** Bytes that no place covers keep their values. */
  lemma {:induction false} RelocatedElsewhere(m: Flat, places: seq<nat>, bias: nat, a: nat, n: nat)
    requires AllMapped(m, places) && Apart(places, a, n) && Mapped(m, a, n)
    ensures Mapped(Relocated(m, places, bias), a, n) && Get(Relocated(m, places, bias), a, n) == Get(m, a, n)
    decreases |places|
  {
    if places != [] {
      var v := Added(Word(m, places[0]), bias);
      SameDomain(m, places[0], v, places[1..]);
      GetPutElsewhere(m, places[0], Encode(v, 8), a, n);
      RelocatedElsewhere(PutWord(m, places[0], v), places[1..], bias, a, n);
    }
  }

  lemma MappedSame(m: Flat, m': Flat, a: seq<nat>, b: seq<nat>)
    requires AllMapped(m, a) && AllMapped(m, b) && m'.Keys == m.Keys
    ensures AllMapped(m', b) && AllMapped(m, a + b)
  {
    assert forall i :: 0 <= i < |b| ==> Mapped(m, b[i], 8);
  }

  lemma MappedTail(m: Flat, a: seq<nat>)
    requires AllMapped(m, a) && a != []
    ensures Mapped(m, a[0], 8) && AllMapped(m, a[1..])
  {
  }

  lemma RelocatedStep(m: Flat, s: seq<nat>, bias: nat)
    requires AllMapped(m, s) && s != []
    ensures Mapped(m, s[0], 8) && AllMapped(PutWord(m, s[0], Added(Word(m, s[0]), bias)), s[1..])
    ensures Relocated(m, s, bias) == Relocated(PutWord(m, s[0], Added(Word(m, s[0]), bias)), s[1..], bias)
  {
    SameDomain(m, s[0], Added(Word(m, s[0]), bias), s[1..]);
  }

  lemma RelocatedNone(m: Flat, bias: nat)
    ensures AllMapped(m, []) && Relocated(m, [], bias) == m
  {
  }

  lemma RelocatedMapped(m: Flat, a: seq<nat>, b: seq<nat>, bias: nat)
    requires AllMapped(m, a) && AllMapped(m, b)
    ensures AllMapped(Relocated(m, a, bias), b) && AllMapped(m, a + b)
  {
    RelocatedKeys(m, a, bias);
    MappedSame(m, Relocated(m, a, bias), a, b);
  }

  lemma {:induction false} RelocatedAppend(m: Flat, a: seq<nat>, b: seq<nat>, bias: nat)
    requires AllMapped(m, a) && AllMapped(m, b) && AllMapped(Relocated(m, a, bias), b) && AllMapped(m, a + b)
    ensures Relocated(Relocated(m, a, bias), b, bias) == Relocated(m, a + b, bias)
    decreases |a|
  {
    hide Put, Word, Mapped, AllMapped, Relocated, Added;
    if a == [] {
      assert a + b == b;
      RelocatedNone(m, bias);
    } else {
      MappedTail(m, a);
      RelocatedStep(m, a, bias);
      assert (a + b)[1..] == a[1..] + b && (a + b)[0] == a[0];
      RelocatedStep(m, a + b, bias);
      var v := Added(Word(m, a[0]), bias);
      SameDomain(m, a[0], v, b);
      RelocatedAppend(PutWord(m, a[0], v), a[1..], b, bias);
    }
  }

  /** Words that do not overlap. */
  ghost predicate Spread(places: seq<nat>)
  {
    forall i, j :: 0 <= i < j < |places| ==> places[i] + 8 <= places[j]
  }

  /** Each place gets the bias exactly once. */
  lemma {:induction false} RelocatedWord(m: Flat, places: seq<nat>, bias: nat, i: nat)
    requires AllMapped(m, places) && Spread(places) && i < |places|
    ensures Mapped(Relocated(m, places, bias), places[i], 8)
    ensures Word(Relocated(m, places, bias), places[i]) == Added(Word(m, places[i]), bias)
    decreases |places|
  {
    var v := Added(Word(m, places[0]), bias);
    var m' := PutWord(m, places[0], v);
    SameDomain(m, places[0], v, places[1..]);
    if i == 0 {
      WordPut(m, places[0], v);
      RelocatedElsewhere(m', places[1..], bias, places[0], 8);
    } else {
      RelocatedWord(m', places[1..], bias, i - 1);
      GetPutElsewhere(m, places[0], Encode(v, 8), places[i], 8);
    }
  }

  /** The bitmap for the addresses that follow each other in the `n` words from `at`, and how many these are. */
  ghost function Window(addrs: seq<nat>, at: nat, n: nat): (r: (nat, nat))
    ensures r.1 <= |addrs| && (r.0 == 0 ==> r.1 == 0) && (r.1 == 0 ==> r.0 == 0)
    decreases n
  {
    if n == 0 || addrs == [] then (0, 0)
    else if addrs[0] == at then
      var (v, k) := Window(addrs[1..], at + 8, n - 1);
      (1 + 2 * v, 1 + k)
    else
      var (v, k) := Window(addrs, at + 8, n - 1);
      (2 * v, k)
  }

  /** The packed table for increasing addresses: an address, then bitmaps while they catch something. */
  ghost function Pack(addrs: seq<nat>): seq<nat>
    decreases |addrs|, 0
  {
    if addrs == [] then [] else [addrs[0]] + PackFrom(addrs[1..], addrs[0] + 8)
  }

  ghost function PackFrom(addrs: seq<nat>, at: nat): seq<nat>
    decreases |addrs|, 1
  {
    var (v, k) := Window(addrs, at, 63);
    if v == 0 then Pack(addrs) else [1 + 2 * v] + PackFrom(addrs[k..], at + 63 * 8)
  }

  ghost function Shifted(addrs: seq<nat>, bias: nat): seq<nat>
  {
    seq(|addrs|, i requires 0 <= i < |addrs| => addrs[i] + bias)
  }

  lemma BitsStep(v: nat, a: nat)
    requires a + 8 < U64
    ensures Bits(1 + 2 * v, a) == [a] + Bits(v, a + 8)
    ensures Bits(2 * v, a) == Bits(v, a + 8)
  {
    assert (1 + 2 * v) / 2 == v && 2 * v / 2 == v;
    assert v > 0 ==> Bits(2 * v, a) == [] + Bits(v, a + 8);
  }

  lemma ShiftedAppend(a: seq<nat>, b: seq<nat>, bias: nat)
    ensures Shifted(a + b, bias) == Shifted(a, bias) + Shifted(b, bias)
  {
  }

  lemma {:induction false} WindowFirst(addrs: seq<nat>, at: nat, n: nat)
    ensures Window(addrs, at, n).1 > 0 ==> addrs[0] >= at
    decreases n
  {
    if n > 0 && addrs != [] && addrs[0] != at { WindowFirst(addrs, at + 8, n - 1); }
  }

  lemma {:induction false} WindowBits(addrs: seq<nat>, at: nat, n: nat, bias: nat)
    requires at + bias + 8 * n < U64
    ensures Bits(Window(addrs, at, n).0, at + bias) == Shifted(addrs[..Window(addrs, at, n).1], bias)
    decreases n
  {
    hide Bits, Shifted, Added;
    NoBits(at + bias, bias);
    if n > 0 && addrs != [] {
      if addrs[0] == at {
        WindowBits(addrs[1..], at + 8, n - 1, bias);
        WindowHit(addrs, n, bias, Window(addrs[1..], at + 8, n - 1));
      } else {
        WindowBits(addrs, at + 8, n - 1, bias);
        BitsStep(Window(addrs, at + 8, n - 1).0, at + bias);
      }
    }
  }

  lemma NoBits(at: nat, bias: nat)
    ensures Bits(0, at) == [] && Shifted([], bias) == []
  {}

  lemma WindowHit(addrs: seq<nat>, n: nat, bias: nat, w: (nat, nat))
    requires addrs != [] && w.1 < |addrs| && addrs[0] + bias + 8 < U64
    requires Bits(w.0, addrs[0] + 8 + bias) == Shifted(addrs[1..][..w.1], bias)
    ensures Bits(1 + 2 * w.0, addrs[0] + bias) == Shifted(addrs[..1 + w.1], bias)
  {
    hide Bits, Shifted;
    BitsStep(w.0, addrs[0] + bias);
    assert addrs[..1 + w.1] == [addrs[0]] + addrs[1..][..w.1];
    ShiftedAppend([addrs[0]], addrs[1..][..w.1], bias);
    ShiftedOne(addrs[0], bias);
  }

  lemma ShiftedOne(a: nat, bias: nat)
    ensures Shifted([a], bias) == [a + bias]
  {
  }

  /** Every address is even and the words do not overlap. */
  ghost predicate Packable(addrs: seq<nat>)
  {
    Spread(addrs) && forall i :: 0 <= i < |addrs| ==> addrs[i] % 2 == 0
  }

  lemma PackableRest(addrs: seq<nat>, k: nat)
    requires Packable(addrs) && 0 < k <= |addrs|
    ensures Packable(addrs[k..]) && addrs[0] <= addrs[|addrs| - 1]
    ensures k < |addrs| ==> addrs[k..][|addrs| - k - 1] == addrs[|addrs| - 1] > addrs[0]
  {
  }

  /** Unpacking a packed table gives the addresses back. */
  lemma {:induction false} PlacesPack(addrs: seq<nat>, bias: nat, at: Option<nat>)
    requires Packable(addrs) && (addrs != [] ==> addrs[|addrs| - 1] + bias + 2 * 63 * 8 < U64)
    ensures Places(Pack(addrs), bias, at) == Some(Shifted(addrs, bias))
    decreases |addrs|, 0
  {
    hide Shifted, Pack, PackFrom, Packable, Bits, Spread, Places;
    if addrs == [] {
      PlacesNone(bias, at);
    } else {
      PackStep(addrs);
      PackableRest(addrs, 1);
      PlacesPackFrom(addrs[1..], addrs[0] + 8, bias);
      PlacesAnchor(addrs[0], PackFrom(addrs[1..], addrs[0] + 8), bias, at);
      ShiftedCons(addrs, bias);
    }
  }

  lemma PlacesNone(bias: nat, at: Option<nat>)
    ensures Places(Pack([]), bias, at) == Some(Shifted([], bias))
  {
    assert Shifted([], bias) == [];
  }

  lemma PackStep(addrs: seq<nat>)
    requires Packable(addrs) && addrs != []
    ensures Pack(addrs) == [addrs[0]] + PackFrom(addrs[1..], addrs[0] + 8) && addrs[0] % 2 == 0
  {
  }

  lemma ShiftedCons(addrs: seq<nat>, bias: nat)
    requires addrs != []
    ensures Shifted(addrs, bias) == [addrs[0] + bias] + Shifted(addrs[1..], bias)
  {
  }

  lemma PlacesAnchor(a: nat, table: seq<nat>, bias: nat, at: Option<nat>)
    requires a % 2 == 0 && a + bias + 8 < U64
    ensures Places([a] + table, bias, at) == Prepend([a + bias], Places(table, bias, Some(a + 8 + bias)))
  {
    assert ([a] + table)[1..] == table;
  }

  lemma PlacesBitmap(v: nat, table: seq<nat>, bias: nat, at: nat)
    requires at + 63 * 8 < U64
    ensures Places([1 + 2 * v] + table, bias, Some(at)) == Prepend(Bits(v, at), Places(table, bias, Some(at + 63 * 8)))
  {
    assert ([1 + 2 * v] + table)[1..] == table && (1 + 2 * v) / 2 == v && (1 + 2 * v) % 2 == 1;
  }

  lemma {:induction false} PlacesPackFrom(addrs: seq<nat>, at: nat, bias: nat)
    requires Packable(addrs) && (addrs != [] ==> addrs[|addrs| - 1] + bias + 2 * 63 * 8 < U64)
    requires addrs != [] ==> at <= addrs[|addrs| - 1] + 63 * 8
    ensures Places(PackFrom(addrs, at), bias, Some(at + bias)) == Some(Shifted(addrs, bias))
    decreases |addrs|, 1
  {
    hide Shifted, Pack, Places, Packable, Window, Bits, Spread;
    var w := Window(addrs, at, 63);
    if w.0 == 0 {
      PlacesPack(addrs, bias, Some(at + bias));
    } else {
      WindowBits(addrs, at, 63, bias);
      WindowFirst(addrs, at, 63);
      PackableRest(addrs, w.1);
      var rest := addrs[w.1..];
      PlacesPackFrom(rest, at + 63 * 8, bias);
      PlacesBitmap(w.0, PackFrom(rest, at + 63 * 8), bias, at + bias);
      assert addrs == addrs[..w.1] + rest;
      ShiftedAppend(addrs[..w.1], rest, bias);
    }
  }

  /** `n` table entries from `a`. */
  ghost function Table(m: Flat, a: nat, n: nat): (t: seq<nat>)
    requires Mapped(m, a, 8 * n)
    ensures |t| == n
  {
    seq(n, k requires 0 <= k < n => EntryMapped(m, a, n, k); Word(m, a + 8 * k))
  }

  lemma EntryMapped(m: Flat, a: nat, n: nat, k: nat)
    requires Mapped(m, a, 8 * n) && k < n
    ensures Mapped(m, a + 8 * k, 8)
  {
    assert forall x: nat :: In(x, a + 8 * k, 8) ==> In(x, a, 8 * n);
  }

  datatype Result = Ok | Fault | NoExec

  method AddAt(mem: Memory, addr: nat, bias: nat) returns (ok: bool)
    requires mem.Valid()
    modifies mem
    ensures mem.Valid() && (ok <==> Mapped(old(mem.Bytes()), addr, 8))
    ensures ok ==> AllMapped(old(mem.Bytes()), [addr]) && mem.Bytes() == Relocated(old(mem.Bytes()), [addr], bias)
  {
    var v := mem.ReadWord(addr);
    if v.None? {
      return false;
    }
    ok := mem.WriteWord(addr, Added(v.value, bias));
  }

  /** One more place after those already done. */
  lemma OneMore(m: Flat, done: seq<nat>, x: nat, bias: nat)
    requires AllMapped(m, done)
    ensures Mapped(Relocated(m, done, bias), x, 8) <==> AllMapped(m, done + [x])
    ensures AllMapped(m, done + [x]) ==> AllMapped(Relocated(m, done, bias), [x])
    ensures AllMapped(m, done + [x]) ==> Relocated(Relocated(m, done, bias), [x], bias) == Relocated(m, done + [x], bias)
  {
    RelocatedKeys(m, done, bias);
    assert (done + [x])[|done|] == x;
    if AllMapped(m, done + [x]) {
      assert AllMapped(m, [x]);
      RelocatedMapped(m, done, [x], bias);
      RelocatedAppend(m, done, [x], bias);
    }
  }

  lemma MappedPrefix(m: Flat, a: seq<nat>, b: seq<nat>)
    requires AllMapped(m, a + b)
    ensures AllMapped(m, a)
  {
    assert forall i :: 0 <= i < |a| ==> (a + b)[i] == a[i];
  }

  /** One place after those in `done`. */
  method ApplyAt(mem: Memory, addr: nat, bias: nat, ghost m: Flat, ghost done: seq<nat>) returns (ok: bool)
    requires mem.Valid() && AllMapped(m, done) && mem.Bytes() == Relocated(m, done, bias)
    modifies mem
    ensures mem.Valid() && (ok <==> AllMapped(m, done + [addr]))
    ensures ok ==> mem.Bytes() == Relocated(m, done + [addr], bias)
  {
    hide Mapped, Memory.Bytes, Put, Word, Relocated, AllMapped;
    OneMore(m, done, addr, bias);
    ok := AddAt(mem, addr, bias);
  }

  /** The inner loop over a bitmap, already shifted by one. */
  method ApplyBits(mem: Memory, bits: nat, at: nat, bias: nat, ghost m: Flat, ghost before: seq<nat>) returns (ok: bool)
    requires mem.Valid() && AllMapped(m, before) && mem.Bytes() == Relocated(m, before, bias)
    modifies mem
    ensures mem.Valid() && (ok <==> AllMapped(m, before + Bits(bits, at)))
    ensures ok ==> mem.Bytes() == Relocated(m, before + Bits(bits, at), bias)
  {
    hide Mapped, Memory.Bytes, Put, Word, Relocated, AllMapped, Added;
    ghost var done := before;
    var bitmap, addr := bits, at;
    while bitmap != 0
      invariant mem.Valid() && done + Bits(bitmap, addr) == before + Bits(bits, at)
      invariant AllMapped(m, done) && mem.Bytes() == Relocated(m, done, bias)
      decreases bitmap
    {
      if bitmap % 2 == 1 {
        ghost var rest := Bits(bitmap / 2, Added(addr, 8));
        assert done + ([addr] + rest) == (done + [addr]) + rest;
        var one := ApplyAt(mem, addr, bias, m, done);
        if !one {
          if AllMapped(m, done + [addr] + rest) { MappedPrefix(m, done + [addr], rest); }
          return false;
        }
        done := done + [addr];
      }
      bitmap, addr := bitmap / 2, Added(addr, 8);
    }
    assert done + [] == done;
    ok := true;
  }

  /** The places of one table entry. */
  ghost function EntryPlaces(rel: nat, at: nat, bias: nat): seq<nat>
  {
    if rel % 2 == 0 then [Added(rel, bias)] else Bits(rel / 2, at)
  }

  /** The address that a following bitmap starts at. */
  function After(rel: nat, at: nat, bias: nat): nat
  {
    if rel % 2 == 0 then Added(Added(rel, bias), 8) else Added(at, 63 * 8)
  }

  /** One round of the outer loop. */
  method Entry(mem: Memory, rel: nat, at: nat, bias: nat) returns (ok: bool, next: nat)
    requires mem.Valid()
    modifies mem
    ensures mem.Valid() && (ok <==> AllMapped(old(mem.Bytes()), EntryPlaces(rel, at, bias)))
    ensures ok ==> mem.Bytes() == Relocated(old(mem.Bytes()), EntryPlaces(rel, at, bias), bias)
    ensures next == After(rel, at, bias)
  {
    hide Mapped, Memory.Bytes, Put, Word, Relocated, AllMapped, Added, Bits;
    ghost var m := mem.Bytes();
    RelocatedNone(m, bias);
    if rel % 2 == 0 {
      assert [] + [Added(rel, bias)] == [Added(rel, bias)];
      ok := ApplyAt(mem, Added(rel, bias), bias, m, []);
      next := Added(Added(rel, bias), 8);
    } else {
      assert [] + Bits(rel / 2, at) == Bits(rel / 2, at);
      ok := ApplyBits(mem, rel / 2, at, bias, m, []);
      next := Added(at, 63 * 8);
    }
  }

  /** A mapped table that begins with an address and whose places lie outside it. */
  ghost predicate Separate(m: Flat, a: nat, n: nat, bias: nat)
  {
    Mapped(m, a, 8 * n) &&
    var p := Places(Table(m, a, n), bias, None);
    p.Some? && Apart(p.value, a, 8 * n)
  }

  /** While places outside the table are relocated, its entries stay what they were. */
  lemma EntryStays(m: Flat, done: seq<nat>, bias: nat, a: nat, n: nat, k: nat)
    requires Mapped(m, a, 8 * n) && AllMapped(m, done) && Apart(done, a, 8 * n) && k < n
    ensures Mapped(Relocated(m, done, bias), a + 8 * k, 8)
    ensures Word(Relocated(m, done, bias), a + 8 * k) == Table(m, a, n)[k]
  {
    EntryMapped(m, a, n, k);
    RelocatedElsewhere(m, done, bias, a + 8 * k, 8);
  }

  /** What the outer loop has done after `k` entries, and what is left. */
  ghost predicate Halfway(m: Flat, now: Flat, a: nat, n: nat, bias: nat, k: nat, at: Option<nat>, done: seq<nat>)
    requires Separate(m, a, n, bias) && k <= n
  {
    var all := Places(Table(m, a, n), bias, None).value;
    var rest := Places(Table(m, a, n)[k..], bias, at);
    AllMapped(m, done) && now == Relocated(m, done, bias) && rest.Some? && done + rest.value == all
  }

  function From(at: Option<nat>): nat { if at.None? then 0 else at.value }

  lemma PlacesFirst(table: seq<nat>, bias: nat, at: Option<nat>)
    requires table != [] && Places(table, bias, at).Some?
    ensures table[0] % 2 == 1 ==> at.Some?
    ensures Places(table[1..], bias, Some(After(table[0], From(at), bias))).Some?
    ensures Places(table, bias, at).value ==
      EntryPlaces(table[0], From(at), bias) + Places(table[1..], bias, Some(After(table[0], From(at), bias))).value
  {
  }

  lemma PartApart(a: seq<nat>, b: seq<nat>, x: nat, n: nat)
    requires Apart(a + b, x, n)
    ensures Apart(a, x, n) && Apart(b, x, n)
  {
    assert forall i :: 0 <= i < |a| ==> (a + b)[i] == a[i];
    assert forall i :: 0 <= i < |b| ==> (a + b)[|a| + i] == b[i];
  }

  /** What is done stays mapped, so what comes next is mapped exactly if it was at the beginning. */
  lemma StillMapped(m: Flat, done: seq<nat>, here: seq<nat>, after: seq<nat>, bias: nat)
    requires AllMapped(m, done)
    ensures AllMapped(Relocated(m, done, bias), here) <==> AllMapped(m, done + here)
    ensures AllMapped(m, done + here + after) ==> AllMapped(m, done + here)
    ensures AllMapped(m, done + here) ==>
      AllMapped(Relocated(m, done, bias), here) && Relocated(Relocated(m, done, bias), here, bias) == Relocated(m, done + here, bias)
  {
    hide Relocated, Mapped, Put, Word;
    RelocatedKeys(m, done, bias);
    var now := Relocated(m, done, bias);
    assert forall x: nat :: Mapped(now, x, 8) <==> Mapped(m, x, 8) by { SameMapped(m, now); }
    assert forall i :: 0 <= i < |here| ==> (done + here)[|done| + i] == here[i];
    assert forall i :: 0 <= i < |done + here| ==> (done + here + after)[i] == (done + here)[i];
    if AllMapped(m, done + here) {
      assert AllMapped(m, here);
      RelocatedAppend(m, done, here, bias);
    }
  }

  lemma SameMapped(m: Flat, m': Flat)
    requires m.Keys == m'.Keys
    ensures forall x: nat, n: nat :: Mapped(m', x, n) <==> Mapped(m, x, n)
  {}

  /** The next entry is read as it was, can be applied exactly if its places are mapped, and leaves the rest to do. */
  lemma NextEntry(m: Flat, now: Flat, a: nat, n: nat, bias: nat, k: nat, at: Option<nat>, done: seq<nat>)
    requires Separate(m, a, n, bias) && k < n && Halfway(m, now, a, n, bias, k, at, done)
    ensures Mapped(now, a + 8 * k, 8) && Word(now, a + 8 * k) == Table(m, a, n)[k]
    ensures var rel := Table(m, a, n)[k];
      var here := EntryPlaces(rel, From(at), bias);
      (rel % 2 == 1 ==> at.Some?) &&
      (AllMapped(m, Places(Table(m, a, n), bias, None).value) ==> AllMapped(now, here)) &&
      (AllMapped(now, here) ==>
         Halfway(m, Relocated(now, here, bias), a, n, bias, k + 1, Some(After(rel, From(at), bias)), done + here))
  {
    hide Mapped, Put, Word, Relocated, AllMapped, Added, Bits, Apart, Places, EntryPlaces, After, Table;
    var t := Table(m, a, n);
    var rest := t[k..];
    PlacesFirst(rest, bias, at);
    assert rest[0] == t[k] && rest[1..] == t[k + 1..];
    var here := EntryPlaces(t[k], From(at), bias);
    var after := Places(t[k + 1..], bias, Some(After(t[k], From(at), bias))).value;
    PartApart(done, here + after, a, 8 * n);
    assert done + (here + after) == (done + here) + after;
    EntryStays(m, done, bias, a, n, k);
    StillMapped(m, done, here, after, bias);
  }

  /** `apply_dt_relr`. */
  method Apply(mem: Memory, bias: nat, a: nat, size: nat) returns (r: Result)
    requires mem.Valid()
    modifies mem
    ensures mem.Valid()
    ensures r == NoExec <==> size > 0 && Mapped(old(mem.Bytes()), a, 8) && Word(old(mem.Bytes()), a) % 2 == 1
    ensures r == NoExec ==> mem.Bytes() == old(mem.Bytes())
    ensures r == Ok ==> mem.Bytes().Keys == old(mem.Bytes()).Keys && Mapped(old(mem.Bytes()), a, 8 * ((size + 7) / 8))
    ensures Separate(old(mem.Bytes()), a, (size + 7) / 8, bias) ==>
      var p := Places(Table(old(mem.Bytes()), a, (size + 7) / 8), bias, None).value;
      (r == Ok <==> AllMapped(old(mem.Bytes()), p)) && (r == Ok ==> mem.Bytes() == Relocated(old(mem.Bytes()), p, bias))
  {
    hide Mapped, Put, Word, Relocated, AllMapped, Added, Bits, Apart, Places, EntryPlaces, After, Table, Separate, Halfway, Memory.Bytes;
    var at: Option<nat> := None;
    var k := 0;
    ghost var n, m, done: seq<nat> := (size + 7) / 8, mem.Bytes(), [];
    if Separate(m, a, n, bias) { Beginning(m, a, n, bias); }
    NoneMapped(m, a);
    while 8 * k < size
      invariant 0 <= k <= n && mem.Valid() && (k == 0 ==> mem.Bytes() == m) && (at.None? <==> k == 0)
      invariant mem.Bytes().Keys == m.Keys && Mapped(m, a, 8 * k)
      invariant Separate(m, a, n, bias) ==> Halfway(m, mem.Bytes(), a, n, bias, k, at, done)
      invariant k > 0 ==> Mapped(m, a, 8) && Word(m, a) % 2 == 0
      decreases size - 8 * k
    {
      if Separate(m, a, n, bias) { NextEntry(m, mem.Bytes(), a, n, bias, k, at, done); }
      ReadThere(m, mem.Bytes(), a, k);
      var rel := mem.ReadWord(a + 8 * k);
      if rel.None? {
        return Fault;
      }
      if rel.value % 2 == 1 && at.None? {
        return NoExec;
      }
      done := done + EntryPlaces(rel.value, From(at), bias);
      ghost var now := mem.Bytes();
      var ok, next := Entry(mem, rel.value, From(at), bias);
      if !ok {
        return Fault;
      }
      RelocatedKeys(now, EntryPlaces(rel.value, From(at), bias), bias);
      at, k := Some(next), k + 1;
    }
    if Separate(m, a, n, bias) { Ending(m, mem.Bytes(), a, n, bias, at, done); }
    r := Ok;
  }

  lemma NoneMapped(m: Flat, a: nat)
    ensures Mapped(m, a, 0)
  {}

  /** An entry can be read exactly if it was mapped at the beginning. */
  lemma ReadThere(m: Flat, now: Flat, a: nat, k: nat)
    requires m.Keys == now.Keys && Mapped(m, a, 8 * k)
    ensures Mapped(now, a + 8 * k, 8) <==> Mapped(m, a, 8 * (k + 1))
    ensures k == 0 ==> (Mapped(now, a, 8) <==> Mapped(m, a, 8))
  {
    assert forall x: nat :: In(x, a, 8 * (k + 1)) <==> In(x, a, 8 * k) || In(x, a + 8 * k, 8);
  }

  lemma Beginning(m: Flat, a: nat, n: nat, bias: nat)
    requires Separate(m, a, n, bias)
    ensures Halfway(m, m, a, n, bias, 0, None, [])
  {
    assert Table(m, a, n)[0..] == Table(m, a, n);
  }

  lemma Ending(m: Flat, now: Flat, a: nat, n: nat, bias: nat, at: Option<nat>, done: seq<nat>)
    requires Separate(m, a, n, bias) && Halfway(m, now, a, n, bias, n, at, done)
    ensures var p := Places(Table(m, a, n), bias, None).value; AllMapped(m, p) && now == Relocated(m, p, bias)
  {
    assert done + [] == done;
  }

  /**
   * Applying the packed form of any even, non-overlapping addresses is the same as relocating the
   * plain list: each word gets the bias once.
   */
  lemma PackedIsPlain(m: Flat, a: nat, addrs: seq<nat>, bias: nat)
    requires Packable(addrs) && (addrs != [] ==> addrs[|addrs| - 1] + bias + 2 * 63 * 8 < U64)
    requires var n := |Pack(addrs)|; Mapped(m, a, 8 * n) && Table(m, a, n) == Pack(addrs) && Apart(Shifted(addrs, bias), a, 8 * n)
    requires AllMapped(m, Shifted(addrs, bias))
    ensures Separate(m, a, |Pack(addrs)|, bias)
    ensures Places(Table(m, a, |Pack(addrs)|), bias, None) == Some(Shifted(addrs, bias))
    ensures forall i :: 0 <= i < |addrs| ==> Mapped(Relocated(m, Shifted(addrs, bias), bias), addrs[i] + bias, 8)
    ensures forall i :: 0 <= i < |addrs| ==>
      Word(Relocated(m, Shifted(addrs, bias), bias), addrs[i] + bias) == Added(Word(m, Shifted(addrs, bias)[i]), bias)
  {
    hide Pack, Word, Relocated, Places, Mapped, Added;
    PlacesPack(addrs, bias, None);
    assert Spread(Shifted(addrs, bias));
    forall i | 0 <= i < |addrs| ensures Mapped(Relocated(m, Shifted(addrs, bias), bias), addrs[i] + bias, 8) &&
      Word(Relocated(m, Shifted(addrs, bias), bias), addrs[i] + bias) == Added(Word(m, Shifted(addrs, bias)[i]), bias)
    {
      RelocatedWord(m, Shifted(addrs, bias), bias, i);
    }
  }
}
