/** The kernel message queues. */
module MsgQueue {
  import opened Lists

  const MAX_MESSAGES: nat := 256
  const MAX_MESSAGE_SIZE: nat := 8192

  datatype Message<T> = Message(kind: nat, size: nat, body: T)

  datatype SendResult = Ok | TooBig | Full | NoMemory

  datatype RecvResult<T> = Got(size: nat, body: T) | Nothing | DoesNotFit

  ghost function Bytes<T>(s: seq<Message<T>>): nat
  {
    if s == [] then 0 else s[0].size + Bytes(s[1..])
  }

  lemma {:induction false} BytesAppend<T>(s: seq<Message<T>>, m: Message<T>)
    ensures Bytes(s + [m]) == Bytes(s) + m.size
  {
    if s == [] {
      assert s + [m] == [m] && [m][1..] == [];
    } else {
      BytesAppend(s[1..], m);
      assert (s + [m])[1..] == s[1..] + [m];
    }
  }

  lemma {:induction false} BytesRemoved<T>(s: seq<Message<T>>, i: nat)
    requires i < |s|
    ensures Bytes(Removed(s, i)) == Bytes(s) - s[i].size
  {
    if i == 0 {
      assert Removed(s, 0) == s[1..];
    } else {
      BytesRemoved(s[1..], i - 1);
      assert Removed(s, i) == [s[0]] + Removed(s[1..], i - 1);
    }
  }

  predicate Wanted(want: nat, kind: nat) { want == 0 || kind == want }

  /** `struct ipc_queue`. */
  class Queue<T> {
    var messages: seq<Message<T>>
    var count: nat
    var bytes: nat

    /** The counters are the number and the total size of the waiting messages. */
    ghost predicate Valid()
      reads this
    {
      count == |messages| <= MAX_MESSAGES && bytes == Bytes(messages)
    }

    constructor ()
      ensures Valid() && messages == []
    {
      messages, count, bytes := [], 0, 0;
    }

    /** `msgqueue_send`; `memory` says whether the allocation succeeds. */
    method Send(m: Message<T>, memory: bool) returns (r: SendResult)
      requires Valid()
      modifies this
      ensures Valid()
      ensures r == TooBig <==> m.size > MAX_MESSAGE_SIZE
      ensures r == Full <==> m.size <= MAX_MESSAGE_SIZE && |old(messages)| == MAX_MESSAGES
      ensures messages == if r == Ok then old(messages) + [m] else old(messages)
      ensures r == NoMemory <==> m.size <= MAX_MESSAGE_SIZE && |old(messages)| < MAX_MESSAGES && !memory
    {
      if m.size > MAX_MESSAGE_SIZE {
        return TooBig;
      }
      if count >= MAX_MESSAGES {
        return Full;
      }
      if !memory {
        return NoMemory;
      }
      BytesAppend(messages, m);
      messages, count, bytes := messages + [m], count + 1, bytes + m.size;
      r := Ok;
    }

    /**
     * `msgqueue_recv` without waiting: takes the oldest message of the wanted kind and leaves the
     * others in order. A message longer than the buffer is refused and stays.
     */
    method Recv(size: nat, want: nat) returns (r: RecvResult<T>, ghost at: nat)
      requires Valid()
      modifies this
      ensures Valid() && at <= |old(messages)|
      ensures forall j :: 0 <= j < at ==> want != 0 && old(messages)[j].kind != want
      ensures r == Nothing <==> at == |old(messages)|
      ensures at < |old(messages)| ==> (want == 0 || old(messages)[at].kind == want) && (r == DoesNotFit <==> old(messages)[at].size > size)
      ensures r.Got? ==> r == Got(old(messages)[at].size, old(messages)[at].body) && messages == Removed(old(messages), at)
      ensures !r.Got? ==> messages == old(messages)
    {
      var i := 0;
      while i < |messages| && !Wanted(want, messages[i].kind)
        invariant 0 <= i <= |messages| && forall j :: 0 <= j < i ==> !Wanted(want, messages[j].kind)
      {
        i := i + 1;
      }
      at := i;
      if i == |messages| {
        return Nothing, at;
      }
      var m := messages[i];
      if m.size > size {
        return DoesNotFit, at;
      }
      BytesRemoved(messages, i);
      messages, count, bytes := messages[..i] + messages[i + 1..], count - 1, bytes - m.size;
      r := Got(m.size, m.body);
    }
  }
}
