/**
 * A legacy virtqueue shared by the driver and a conforming device. The ring indices are 16 bits wide;
 * the ghost counters beside them are not.
 */
module Virtq {
  import opened Common
  import opened Arith
  import opened Lists

  const HDR: nat := 10
  const NET_BUFFER_SIZE: nat := 2048
  const U16: nat := 0x1_0000

  /** `items` lie in the ring one after the other, beginning at position `start`. */
  ghost predicate Ring(ring: seq<nat>, start: nat, items: seq<nat>)
  {
    |ring| > 0 && |items| <= |ring| && forall k :: 0 <= k < |items| ==> ring[Slot(ring, start + k)] == items[k]
  }

  function Slot(ring: seq<nat>, i: nat): (s: nat)
    requires |ring| > 0
    ensures s < |ring|
  {
    i % |ring|
  }

  /** Positions less than one lap apart have different slots. */
  lemma SlotsDiffer(ring: seq<nat>, i: nat, j: nat)
    requires |ring| > 0 && i < j < i + |ring|
    ensures Slot(ring, i) != Slot(ring, j)
  {
    var n, d := |ring|, j / |ring| - i / |ring|;
    assert i == i / n * n + i % n && j == j / n * n + j % n;
    assert d * n == j / n * n - i / n * n;
    Small(d, n);
  }

  lemma RingPush(ring: seq<nat>, start: nat, items: seq<nat>, d: nat)
    requires Ring(ring, start, items) && |items| < |ring|
    ensures Ring(ring[Slot(ring, start + |items|) := d], start, items + [d])
  {
    var next := ring[Slot(ring, start + |items|) := d];
    forall k | 0 <= k < |items| + 1 ensures next[Slot(next, start + k)] == (items + [d])[k] {
      if k < |items| { SlotsDiffer(ring, start + k, start + |items|); }
    }
  }

  /** A ring with the 16-bit index that follows its last item. */
  ghost predicate Indexed(ring: seq<nat>, start: nat, items: seq<nat>, idx: nat)
  {
    Ring(ring, start, items) && idx == (start + |items|) % U16
  }

  lemma IndexedPush(ring: seq<nat>, start: nat, items: seq<nat>, idx: nat, d: nat)
    requires Indexed(ring, start, items, idx) && |items| < |ring| && U16 % |ring| == 0
    ensures Indexed(ring[idx % |ring| := d], start, items + [d], (idx + 1) % U16)
    ensures idx % |ring| == Slot(ring, start + |items|)
  {
    Divides(start + |items|, |ring|);
    RingPush(ring, start, items, d);
    Count(start + |items|);
  }

  lemma IndexedPop(ring: seq<nat>, start: nat, items: seq<nat>, idx: nat)
    requires Indexed(ring, start, items, idx) && items != [] && U16 % |ring| == 0
    ensures Indexed(ring, start + 1, items[1..], idx) && ring[start % |ring|] == items[0]
    ensures start % U16 % |ring| == start % |ring|
  {
    RingPop(ring, start, items);
    Divides(start, |ring|);
  }

  lemma RingPop(ring: seq<nat>, start: nat, items: seq<nat>)
    requires Ring(ring, start, items) && items != []
    ensures Ring(ring, start + 1, items[1..]) && ring[Slot(ring, start)] == items[0]
  {
    assert ring[Slot(ring, start + 0)] == items[0];
    forall k | 0 <= k < |items| - 1 ensures ring[Slot(ring, start + 1 + k)] == items[1..][k] {
      assert ring[Slot(ring, start + (k + 1))] == items[k + 1];
    }
  }

  /** A 16-bit index reaches the same slot as an unbounded one exactly when the ring size divides 2^16. */
  lemma WrapAgrees(n: nat)
    requires 0 < n <= U16
    ensures (forall i: nat :: Wrapped(i, n) == i % n) <==> U16 % n == 0
  {
    if U16 % n == 0 {
      forall i: nat ensures Wrapped(i, n) == i % n { Divides(i, n); }
    } else {
      assert Wrapped(U16, n) == 0 != U16 % n;
    }
  }

  function Wrapped(i: nat, n: nat): nat
    requires n > 0
  {
    i % U16 % n
  }

  lemma Divides(i: nat, n: nat)
    requires n > 0 && U16 % n == 0
    ensures i % U16 % n == i % n
  {
    var q, m := i / U16, U16 / n;
    assert i == q * U16 + i % U16 && U16 == m * n;
    assert q * U16 == q * m * n;
    AddMultiple(i % U16, q * m, n);
  }

  /** Each busy descriptor is in exactly one place, once; every other belongs to the driver. */
  ghost predicate Owned(busy: seq<bool>, pending: seq<nat>, held: set<nat>, done: seq<nat>)
  {
    Unique(pending) && Unique(done) && Elems(pending) !! held && Elems(pending) !! Elems(done) && held !! Elems(done) &&
    (forall d: nat :: d in pending || d in held || d in done ==> d < |busy|) &&
    (forall d: nat :: d < |busy| ==> (busy[d] <==> d in pending || d in held || d in done))
  }

  lemma PostOwned(busy: seq<bool>, pending: seq<nat>, held: set<nat>, done: seq<nat>, d: nat)
    requires Owned(busy, pending, held, done) && d < |busy| && !busy[d]
    ensures Owned(busy[d := true], pending + [d], held, done) && |pending| < |busy| && d !in done
  {
    Pigeonhole(pending, |busy|, d);
    assert Elems(pending + [d]) == Elems(pending) + {d};
  }

  /** The device reads the oldest available entry. */
  lemma TakeOwned(busy: seq<bool>, pending: seq<nat>, held: set<nat>, done: seq<nat>)
    requires Owned(busy, pending, held, done) && pending != []
    ensures Owned(busy, pending[1..], held + {pending[0]}, done)
  {
    assert pending == [pending[0]] + pending[1..];
    assert forall d :: d in pending <==> d == pending[0] || d in pending[1..];
    assert Elems(pending) == Elems(pending[1..]) + {pending[0]};
  }

  lemma ReturnOwned(busy: seq<bool>, pending: seq<nat>, held: set<nat>, done: seq<nat>, d: nat)
    requires Owned(busy, pending, held, done) && d in held
    ensures Owned(busy, pending, held - {d}, done + [d]) && |done| < |busy| && d !in done && d < |busy|
  {
    assert d !in Elems(done);
    Pigeonhole(done, |busy|, d);
    assert Elems(done + [d]) == Elems(done) + {d};
  }

  lemma ReapOwned(busy: seq<bool>, pending: seq<nat>, held: set<nat>, done: seq<nat>)
    requires Owned(busy, pending, held, done) && done != []
    ensures done[0] < |busy| && busy[done[0]] && done[0] !in pending && done[0] !in held
    ensures Owned(busy[done[0] := false], pending, held, done[1..])
    ensures Owned(busy, pending + [done[0]], held, done[1..]) && |pending| < |busy|
  {
    var d := done[0];
    assert done == [d] + done[1..];
    assert forall e :: e in done <==> e == d || e in done[1..];
    assert Elems(done) == Elems(done[1..]) + {d};
    assert d in Elems(done) && d !in Elems(pending);
    PostOwned(busy[d := false], pending, held, done[1..], d);
    assert busy[d := false][d := true] == busy;
  }

  /** No returned page has changed since the device left it. */
  ghost predicate Left(buf: seq<Bytes>, done: seq<nat>, lens: seq<nat>, filled: seq<Bytes>)
    ensures Left(buf, done, lens, filled) ==> |lens| == |done|
  {
    |lens| == |filled| == |done| &&
    forall k :: 0 <= k < |done| ==> done[k] < |buf| && lens[k] <= NET_BUFFER_SIZE && buf[done[k]] == filled[k]
  }

  lemma LeftElsewhere(buf: seq<Bytes>, done: seq<nat>, lens: seq<nat>, filled: seq<Bytes>, d: nat, page: Bytes)
    requires Left(buf, done, lens, filled) && d < |buf| && d !in done
    ensures Left(buf[d := page], done, lens, filled)
  {
    assert forall k :: 0 <= k < |done| ==> done[k] in done;
  }

  lemma LeftAdd(buf: seq<Bytes>, done: seq<nat>, lens: seq<nat>, filled: seq<Bytes>, d: nat, len: nat, page: Bytes)
    requires Left(buf, done, lens, filled) && d < |buf| && d !in done && len <= NET_BUFFER_SIZE
    ensures Left(buf[d := page], done + [d], lens + [len], filled + [page])
  {
    LeftElsewhere(buf, done, lens, filled, d, page);
  }

  function Zeros(n: nat): (z: Bytes)
    ensures |z| == n && forall k :: 0 <= k < n ==> z[k] == 0
  {
    seq(n, _ => 0)
  }

  datatype TxResult = Queued | Invalid | TooLong | Again

  /** `struct virtio_legacy_queue` and the memory it shares with the device. */
  class Queue {
    const qsize: nat
    var avail: seq<nat>
    var availIdx: nat
    var used: seq<nat>
    var usedLen: seq<nat>
    var usedIdx: nat
    var lastUsed: nat
    var busy: seq<bool>
    var descLen: seq<nat>
    var buf: seq<Bytes>

    /** How many available entries the device has read. */
    var taken: nat

    /** Available entries the device has not read, descriptors it works on, entries it returned. */
    ghost var pending: seq<nat>
    ghost var held: set<nat>
    ghost var done: seq<nat>
    ghost var reaped: nat
    /** What the driver asked to transmit from each busy descriptor. */
    ghost var frame: map<nat, Bytes>
    /** For each returned entry, the length the device reported and the page it left. */
    ghost var lens: seq<nat>
    ghost var filled: seq<Bytes>

    ghost predicate Shape()
      reads `avail, `used, `usedLen, `busy, `descLen, `buf
      ensures Shape() ==> |avail| == |used| == |usedLen| == |busy| == |descLen| == |buf| == qsize
    {
      0 < qsize < U16 && U16 % qsize == 0 && |avail| == |used| == |usedLen| == |busy| == |descLen| == |buf| == qsize &&
      forall d :: 0 <= d < qsize ==> |buf[d]| == PAGE_SIZE && descLen[d] <= NET_BUFFER_SIZE
    }

    /** The rings and their 16-bit indices describe `pending` and `done`. */
    ghost predicate Rings()
      reads `avail, `taken, `pending, `availIdx, `used, `reaped, `done, `usedIdx, `lastUsed
    {
      Indexed(avail, taken, pending, availIdx) && Indexed(used, reaped, done, usedIdx) && lastUsed == reaped % U16
    }

    /** No buffer of a busy descriptor has changed since it was submitted. */
    ghost predicate Intact()
      requires Shape()
      reads `avail, `used, `usedLen, `frame, `busy, `buf, `descLen
    {
      forall d :: d in frame ==> d < qsize && busy[d] && Holds(buf[d], descLen[d], frame[d])
    }

    ghost predicate Returned()
      reads `usedLen, `reaped, `lens, `buf, `done, `filled
    {
      Ring(usedLen, reaped, lens) && Left(buf, done, lens, filled)
    }

    ghost predicate Valid()
      reads this
      ensures Valid() ==> Shape()
    {
      Shape() && Owned(busy, pending, held, done) && Rings() && Intact() && Returned()
    }

    /** `virtio_legacy_queue_setup`, `virtio_queue_alloc_buffers` and `virtio_tx_prepare`. */
    constructor (n: nat)
      requires 0 < n < U16 && U16 % n == 0
      ensures Valid() && qsize == n && pending == [] && held == {} && done == [] && frame == map[]
    {
      qsize := n;
      avail, used, usedLen, descLen := seq(n, _ => 0), seq(n, _ => 0), seq(n, _ => 0), seq(n, _ => HDR);
      busy, buf := seq(n, _ => false), seq(n, _ => Zeros(PAGE_SIZE));
      availIdx, usedIdx, lastUsed := 0, 0, 0;
      pending, held, done, taken, reaped, frame, lens, filled := [], {}, [], 0, 0, map[], [], [];
    }

    /** `virtio_queue_push_avail`: the slot written is not one the device has still to read. */
    method PushAvail(d: nat)
      requires Shape() && Rings() && |pending| < qsize
      modifies `avail, `availIdx, `pending
      ensures Shape() && Rings() && pending == old(pending) + [d]
    {
      var slot := availIdx % qsize;
      IndexedPush(avail, taken, pending, availIdx, d);
      hide Indexed;
      avail := avail[slot := d];
      availIdx := (availIdx + 1) % U16;
      pending := pending + [d];
    }

    /** The index of the first descriptor that is not busy, or `qsize`. */
    method FindIdle() returns (d: nat)
      requires Shape()
      ensures d <= qsize && (forall i :: 0 <= i < d ==> busy[i]) && (d < qsize ==> !busy[d])
    {
      d := 0;
      while d < qsize && busy[d]
        invariant d <= qsize && forall i :: 0 <= i < d ==> busy[i]
      {
        d := d + 1;
      }
    }

    /** `virtio_tx_submit`. */
    method Submit(payload: Bytes) returns (r: TxResult)
      requires Valid()
      modifies this
      ensures Valid()
      ensures r == Invalid <==> payload == []
      ensures r == TooLong <==> HDR + |payload| > NET_BUFFER_SIZE
      ensures r == Again <==> 0 < |payload| <= NET_BUFFER_SIZE - HDR && forall d :: 0 <= d < qsize ==> old(busy)[d]
      ensures r != Queued ==> pending == old(pending) && buf == old(buf) && busy == old(busy)
      ensures r == Queued ==> exists d :: Posted(old(busy), old(pending), old(frame), d, payload)
      ensures forall d :: 0 <= d < qsize && old(busy)[d] ==> busy[d] && buf[d] == old(buf)[d] && descLen[d] == old(descLen)[d]
    {
      if payload == [] {
        return Invalid;
      }
      if HDR + |payload| > NET_BUFFER_SIZE {
        return TooLong;
      }
      var d := FindIdle();
      if d == qsize {
        return Again;
      }
      Load(d, payload);
      r := Queued;
    }

    ghost predicate Posted(wasBusy: seq<bool>, wasPending: seq<nat>, wasFrame: map<nat, Bytes>, d: nat, payload: Bytes)
      reads this
    {
      d < |wasBusy| && !wasBusy[d] && busy == wasBusy[d := true] && pending == wasPending + [d] && frame == wasFrame[d := payload]
    }

    method Load(d: nat, payload: Bytes)
      requires Valid() && d < qsize && !busy[d] && 0 < |payload| <= NET_BUFFER_SIZE - HDR
      modifies this
      ensures Valid() && Posted(old(busy), old(pending), old(frame), d, payload)
      ensures forall i :: 0 <= i < qsize && i != d ==> buf[i] == old(buf)[i] && descLen[i] == old(descLen)[i]
    {
      PostOwned(busy, pending, held, done, d);
      hide Owned, Ring, Left, Indexed;
      var page := Zeros(HDR) + payload + buf[d][HDR + |payload|..];
      LeftElsewhere(buf, done, lens, filled, d, page);
      buf := buf[d := page];
      descLen := descLen[d := HDR + |payload|];
      busy := busy[d := true];
      frame := frame[d := payload];
      PushAvail(d);
    }

    /** The device reads the next available entry and the buffer behind it. */
    method DeviceTakes() returns (d: nat, data: Bytes)
      requires Valid() && pending != []
      modifies `pending, `held, `taken
      ensures Valid() && d == old(pending)[0] && d < qsize
      ensures pending == old(pending)[1..] && held == old(held) + {d}
      ensures d in frame ==> data == Zeros(HDR) + frame[d]
    {
      IndexedPop(avail, taken, pending, availIdx);
      TakeOwned(busy, pending, held, done);
      hide Indexed, Owned, Ring, Left;
      d := avail[taken % qsize];
      data := buf[d][..descLen[d]];
      pending, held, taken := pending[1..], held + {d}, taken + 1;
    }

    /** The device may write a page it holds, unless it is one to transmit. */
    method DeviceWrites(d: nat, page: Bytes)
      requires Valid() && d in held && d !in frame && |page| == PAGE_SIZE
      modifies `buf
      ensures Valid() && d < qsize && buf == old(buf)[d := page]
    {
      ReturnOwned(busy, pending, held, done, d);
      LeftElsewhere(buf, done, lens, filled, d, page);
      hide Owned, Ring, Left, Indexed;
      buf := buf[d := page];
    }

    /** The device returns a descriptor through the used ring. */
    method DeviceReturns(d: nat, len: nat)
      requires Valid() && d in held && len <= NET_BUFFER_SIZE
      modifies `used, `usedLen, `usedIdx, `held, `done, `lens, `filled
      ensures Valid() && d < qsize && done == old(done) + [d] && held == old(held) - {d}
      ensures lens == old(lens) + [len] && filled == old(filled) + [buf[d]]
    {
      hide Owned, Ring, Left, Indexed, Holds;
      ReturnKeeps(d, len);
      var slot := usedIdx % qsize;
      used, usedLen := used[slot := d], usedLen[slot := len];
      usedIdx := (usedIdx + 1) % U16;
      held, done, lens, filled := held - {d}, done + [d], lens + [len], filled + [buf[d]];
    }

    /** What the new entries of the used ring describe. */
    lemma ReturnKeeps(d: nat, len: nat)
      requires Valid() && d in held && len <= NET_BUFFER_SIZE
      ensures d < qsize && 0 < qsize && |used| == |usedLen| == |buf| == qsize
      ensures Owned(busy, pending, held - {d}, done + [d])
      ensures Indexed(used[usedIdx % qsize := d], reaped, done + [d], (usedIdx + 1) % U16)
      ensures Ring(usedLen[usedIdx % qsize := len], reaped, lens + [len])
      ensures Left(buf, done + [d], lens + [len], filled + [buf[d]])
    {
      hide Owned, Ring, Left, Indexed, Holds;
      ReturnOwned(busy, pending, held, done, d);
      IndexedPush(used, reaped, done, usedIdx, d);
      RingPush(usedLen, reaped, lens, len);
      LeftAdd(buf, done, lens, filled, d, len, buf[d]);
      assert buf[d := buf[d]] == buf;
    }

    lemma UsedMeans()
      requires Valid()
      ensures (lastUsed != usedIdx <==> done != []) && |lens| == |filled| == |done|
      ensures done != [] ==> done[0] < qsize && used[lastUsed % qsize] == done[0] && usedLen[lastUsed % qsize] == lens[0]
    {
      if done != [] {
        IndexedPop(used, reaped, done, usedIdx);
        RingPop(usedLen, reaped, lens);
        ReapOwned(busy, pending, held, done);
        Apart16(reaped, |done|);
      }
    }

    /** One round of `virtio_handle_tx_used`. */
    method ReapTx()
      requires Valid() && done != []
      modifies this
      ensures Valid() && done == old(done)[1..] && pending == old(pending) && held == old(held)
      ensures old(done)[0] < |old(busy)| && busy == old(busy)[old(done)[0] := false] && frame == old(frame) - {old(done)[0]}
      ensures buf == old(buf)
    {
      UsedMeans();
      var id := used[lastUsed % qsize];
      ReapOwned(busy, pending, held, done);
      hide Owned, Rings, Returned, Intact, Shape;
      if id < qsize && busy[id] {
        Release(id);
      }
      Advance();
    }

    method Release(id: nat)
      requires Shape() && Intact() && id < qsize
      modifies `descLen, `busy, `frame
      ensures Shape() && Intact() && busy == old(busy)[id := false] && frame == old(frame) - {id}
    {
      descLen := descLen[id := HDR];
      busy := busy[id := false];
      frame := frame - {id};
    }

    /** `last_used_idx++`. */
    method Advance()
      requires Shape() && Rings() && Returned() && done != []
      modifies `lastUsed, `done, `reaped, `lens, `filled
      ensures Shape() && Rings() && Returned() && done == old(done)[1..] && lens == old(lens)[1..] && filled == old(filled)[1..]
    {
      IndexedPop(used, reaped, done, usedIdx);
      RingPop(usedLen, reaped, lens);
      Count(reaped);
      hide Ring, Indexed;
      lastUsed := (lastUsed + 1) % U16;
      done, reaped, lens, filled := done[1..], reaped + 1, lens[1..], filled[1..];
    }

    /** `virtio_handle_tx_used`: exactly the returned descriptors become free again. */
    method HandleTxUsed()
      requires Valid()
      modifies this
      ensures Valid() && done == [] && pending == old(pending) && held == old(held) && buf == old(buf)
      ensures forall d: nat :: d < qsize ==> (busy[d] <==> old(busy)[d] && d !in old(done))
    {
      ghost var n := 0;
      UsedMeans();
      while lastUsed != usedIdx
        invariant Valid() && pending == old(pending) && held == old(held) && buf == old(buf)
        invariant n <= |old(done)| && done == old(done)[n..] && (lastUsed != usedIdx <==> done != [])
        invariant forall d: nat :: d < qsize ==> (busy[d] <==> old(busy)[d] && d !in old(done)[..n])
        decreases |done|
      {
        hide Valid;
        ReapTx();
        UsedMeans();
        assert old(done)[..n + 1] == old(done)[..n] + [old(done)[n]];
        n := n + 1;
      }
      assert old(done)[..n] == old(done);
    }

    /** `virtio_rx_prime`: every buffer is posted, in order. */
    method RxPrime()
      requires Valid() && pending == [] && held == {} && done == [] && forall d :: 0 <= d < qsize ==> !busy[d]
      modifies this
      ensures Valid() && frame == old(frame) && |pending| == qsize && forall d :: 0 <= d < qsize ==> busy[d] && pending[d] == d
    {
      for i := 0 to qsize
        invariant Valid() && frame == old(frame) && |pending| == i
        invariant forall d :: 0 <= d < qsize ==> (busy[d] <==> d < i) && (d < i ==> pending[d] == d)
      {
        Post(i);
      }
    }

    /** Posts an idle receive buffer. */
    method Post(d: nat)
      requires Valid() && d < qsize && !busy[d]
      modifies `descLen, `busy, `avail, `availIdx, `pending
      ensures Valid() && busy == old(busy)[d := true] && pending == old(pending) + [d]
    {
      PostOwned(busy, pending, held, done, d);
      hide Owned, Ring, Left, Indexed;
      descLen := descLen[d := NET_BUFFER_SIZE];
      busy := busy[d := true];
      PushAvail(d);
    }

    /** One round of `virtio_handle_rx_used`; the result is the frame passed to the network, if any. */
    method ReapRx() returns (packet: Bytes)
      requires Valid() && done != [] && done[0] !in frame
      modifies this
      ensures Valid() && done == old(done)[1..] && pending == old(pending) + [old(done)[0]] && held == old(held)
      ensures busy == old(busy) && buf == old(buf) && frame == old(frame)
      ensures |old(filled)| > 0 && |old(lens)| > 0 && packet == Packet(old(filled)[0], old(lens)[0])
      ensures lens == old(lens)[1..] && filled == old(filled)[1..]
    {
      UsedMeans();
      var slot := lastUsed % qsize;
      var id, len := used[slot], usedLen[slot];
      ReapOwned(busy, pending, held, done);
      packet := [];
      hide Owned, Rings, Returned, Shape;
      if id < qsize {
        packet := Packet(buf[id], len);
        Recycle(id);
      }
      Advance();
    }

    /** `virtio_rx_recycle`. */
    method Recycle(id: nat)
      requires Shape() && Rings() && Intact() && id < qsize && busy[id] && id !in frame && |pending| < qsize
      modifies `descLen, `busy, `avail, `availIdx, `pending
      ensures Shape() && Rings() && Intact() && busy == old(busy) && pending == old(pending) + [id]
    {
      hide Ring, Indexed;
      descLen := descLen[id := NET_BUFFER_SIZE];
      busy := busy[id := true];
      assert busy == old(busy);
      PushAvail(id);
    }

    /** `virtio_handle_rx_used`: what the device wrote is delivered once, in order, and every buffer is posted again. */
    method HandleRxUsed() returns (packets: seq<Bytes>)
      requires Valid() && frame == map[]
      modifies this
      ensures Valid() && done == [] && pending == old(pending) + old(done) && held == old(held) && frame == map[]
      ensures |packets| == |old(done)| == |old(filled)| == |old(lens)|
      ensures forall k :: 0 <= k < |packets| ==> packets[k] == Packet(old(filled)[k], old(lens)[k])
      ensures forall k :: 0 <= k < |packets| && 10 < old(lens)[k] <= |old(filled)[k]| ==> packets[k] == old(filled)[k][10..old(lens)[k]]
    {
      hide Partway, Packet, Valid;
      packets := [];
      UsedMeans();
      Untouched(pending, done, lens, filled);
      while lastUsed != usedIdx
        invariant Valid() && held == old(held) && frame == map[] && (lastUsed != usedIdx <==> done != [])
        invariant Partway(packets, old(pending), old(done), old(lens), old(filled), pending, done, lens, filled)
        decreases |done|
      {
        ghost var was := (pending, done, lens, filled);
        var p := ReapRx();
        Further(packets, old(pending), old(done), old(lens), old(filled), was.0, was.1, was.2, was.3);
        UsedMeans();
        packets := packets + [p];
      }
      Finished(packets, old(pending), old(done), old(lens), old(filled), pending, lens, filled);
      Shown(packets, old(filled), old(lens));
    }

    lemma Untouched(pending: seq<nat>, done: seq<nat>, lens: seq<nat>, filled: seq<Bytes>)
      requires |lens| == |filled| == |done|
      ensures Partway([], pending, done, lens, filled, pending, done, lens, filled)
    {
      assert pending + done[..0] == pending;
    }
  }

  /** The first `|packets|` returned pages were delivered and posted again. */
  ghost predicate Partway(packets: seq<Bytes>, pending: seq<nat>, done: seq<nat>, lens: seq<nat>, filled: seq<Bytes>,
                          pending': seq<nat>, done': seq<nat>, lens': seq<nat>, filled': seq<Bytes>)
  {
    |packets| <= |done| == |filled| == |lens| &&
    done' == done[|packets|..] && filled' == filled[|packets|..] && lens' == lens[|packets|..] &&
    pending' == pending + done[..|packets|] && forall k :: 0 <= k < |packets| ==> packets[k] == Packet(filled[k], lens[k])
  }

  lemma Further(packets: seq<Bytes>, pending: seq<nat>, done: seq<nat>, lens: seq<nat>, filled: seq<Bytes>,
                pending': seq<nat>, done': seq<nat>, lens': seq<nat>, filled': seq<Bytes>)
    requires Partway(packets, pending, done, lens, filled, pending', done', lens', filled') && done' != []
    ensures |lens'| > 0 && |filled'| > 0
    ensures Partway(packets + [Packet(filled'[0], lens'[0])], pending, done, lens, filled,
                    pending' + [done'[0]], done'[1..], lens'[1..], filled'[1..])
  {
    hide Packet;
    var n := |packets|;
    assert pending + done[..n] + [done[n]] == pending + done[..n + 1];
  }

  lemma Finished(packets: seq<Bytes>, pending: seq<nat>, done: seq<nat>, lens: seq<nat>, filled: seq<Bytes>,
                 pending': seq<nat>, lens': seq<nat>, filled': seq<Bytes>)
    requires Partway(packets, pending, done, lens, filled, pending', [], lens', filled')
    ensures pending' == pending + done && |packets| == |done| == |filled| == |lens|
    ensures forall k :: 0 <= k < |packets| ==> packets[k] == Packet(filled[k], lens[k])
  {
    assert done[..|done|] == done;
  }

  /** The network frame in a received page of which the device reported `len` bytes. */
  /** What lies behind the header of ten bytes is delivered. */
  lemma Shown(packets: seq<Bytes>, filled: seq<Bytes>, lens: seq<nat>)
    requires |packets| == |filled| == |lens| && forall k :: 0 <= k < |packets| ==> packets[k] == Packet(filled[k], lens[k])
    ensures forall k :: 0 <= k < |packets| && 10 < lens[k] <= |filled[k]| ==> packets[k] == filled[k][10..lens[k]]
  {}

  /** A frame behind a header of ten bytes is delivered as it is, whatever the page holds behind it. */
  lemma PacketIsFrame(header: Bytes, frame: Bytes, rest: Bytes)
    requires |header| == 10
    ensures Packet(header + frame + rest, 10 + |frame|) == frame
  {
    assert (header + frame + rest)[10..10 + |frame|] == frame;
  }

  function Packet(page: Bytes, len: nat): Bytes
  {
    if HDR < len <= |page| then page[HDR..len] else []
  }

  ghost predicate Holds(page: Bytes, len: nat, payload: Bytes)
  {
    len == HDR + |payload| && len <= |page| && page[..len] == Zeros(HDR) + payload
  }

  lemma Apart16(n: nat, k: nat)
    requires 0 < k < U16
    ensures n % U16 != (n + k) % U16
  {
  }

  lemma Count(n: nat)
    ensures (n % U16 + 1) % U16 == (n + 1) % U16
  {
  }
}
