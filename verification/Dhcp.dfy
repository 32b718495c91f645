/** The DHCP client (section 4.4.1 of RFC 2131): at most one lease attempt, bounded in messages and time. */
module Dhcp {
  import opened Common

  const RETRY_TICKS: nat := 200
  const MAX_RETRIES: nat := 5
  const OFFER: nat := 2
  const ACK: nat := 5

  datatype State = Disabled | DiscoverSent | RequestSent | Bound | Failed

  /** A well-formed reply: its transaction, the message type found in its options, and the address it names. */
  datatype Packet = Packet(xid: nat, kind: Option<nat>, yiaddr: nat, server: nat)

  datatype Message = Discover(xid: nat) | Request(xid: nat, address: nat, server: nat)

  class Client {
    const xid: nat
    var state: State
    var lastEvent: nat
    var retries: nat
    var offered: nat
    var server: nat
    var address: Option<nat>
    var ticks: nat

    /** The messages sent, the tick of the first one, the true tick of the last one, and the replies taken. */
    ghost var sent: seq<Message>
    ghost var first: nat
    ghost var last: nat
    ghost var taken: seq<Packet>

    predicate Over()
      reads this
    {
      state == Bound || state == Failed
    }

    /** Each message follows the one before within the retry time, so the attempt cannot take longer. */
    ghost predicate Timed()
      reads this
    {
      retries == |sent| <= MAX_RETRIES + 1 && lastEvent == last % U32 &&
      (state == Disabled ==> sent == [] && taken == []) &&
      (state != Disabled ==> sent != [] && first <= last <= first + RETRY_TICKS * (|sent| - 1) && last <= ticks) &&
      (state == DiscoverSent ==> |sent| <= MAX_RETRIES) &&
      (state != Disabled && !Over() ==> ticks <= last + RETRY_TICKS - 1)
    }

    /** What was taken: an offer, then for a binding an acknowledgement, both of this transaction. */
    ghost predicate Granted()
      reads this
    {
      (forall p :: p in taken ==> p.xid == xid) &&
      (state == DiscoverSent ==> taken == []) &&
      (state == RequestSent ==> |taken| == 1 && taken[0].kind == Some(OFFER) && offered == taken[0].yiaddr && server == taken[0].server) &&
      (state == Bound ==> |taken| == 2 && taken[0].kind == Some(OFFER) && taken[1].kind == Some(ACK) && address == Some(taken[1].yiaddr)) &&
      (address.Some? ==> state == Bound)
    }

    ghost predicate Valid()
      reads this
      ensures Valid() ==> |sent| <= 6
      ensures Valid() && state != Disabled && ticks >= first + 1200 ==> state == Bound || state == Failed
    {
      Timed() && Granted()
    }

    constructor (x: nat)
      ensures Valid() && state == Disabled && ticks == 0 && xid == x
    {
      xid, state, lastEvent, retries, offered, server, address, ticks := x, Disabled, 0, 0, 0, 0, None, 0;
      sent, first, last, taken := [], 0, 0, [];
    }

    /** The bookkeeping of `dhcp_send_discover` and `dhcp_send_request`. */
    method Send(m: Message, next: State)
      requires retries == |sent| && (next == DiscoverSent || next == RequestSent)
      modifies `lastEvent, `retries, `state, `sent, `last, `first
      ensures state == next && retries == |sent| && sent == old(sent) + [m] && lastEvent == ticks % U32 && last == ticks
      ensures first == if old(sent) == [] then ticks else old(first)
    {
      lastEvent, retries, state := ticks % U32, retries + 1, next;
      first, last := if sent == [] then ticks else first, ticks;
      sent := sent + [m];
    }

    /** The DHCP branch of a received frame: `dhcp_on_offer` followed by `dhcp_on_ack`. */
    method OnPacket(p: Packet)
      requires Valid()
      modifies this
      ensures Valid() && ticks == old(ticks)
      ensures old(Over()) ==> state == old(state) && address == old(address) && sent == old(sent)
      ensures state == Bound <==> old(state) == Bound || (old(state) == RequestSent && p.xid == xid && p.kind == Some(ACK))
      ensures old(state) == DiscoverSent && p.xid == xid && p.kind == Some(OFFER) ==>
        state == RequestSent && sent == old(sent) + [Request(xid, p.yiaddr, p.server)]
      ensures old(state) == RequestSent && p.xid == xid && p.kind == Some(ACK) ==> address == Some(p.yiaddr) && sent == old(sent)
      ensures !(old(state) == DiscoverSent && p.xid == xid && p.kind == Some(OFFER)) &&
              !(old(state) == RequestSent && p.xid == xid && p.kind == Some(ACK)) ==>
        state == old(state) && address == old(address) && sent == old(sent)
    {
      if (state != DiscoverSent && state != RequestSent) || p.xid != xid {
        return;
      }
      if p.kind == Some(OFFER) && state == DiscoverSent {
        offered, server := p.yiaddr, p.server;
        taken := [p];
        Send(Request(xid, offered, server), RequestSent);
      }
      if p.kind == Some(ACK) && state == RequestSent {
        address, state := Some(p.yiaddr), Bound;
        taken := taken + [p];
      }
    }

    /** `net_tick` as far as DHCP goes: `dhcp_tick` after the clock has moved on. */
    method Tick()
      requires Valid()
      modifies this
      ensures Valid() && ticks == old(ticks) + 1
      ensures old(Over()) ==> state == old(state) && address == old(address) && sent == old(sent)
      ensures !old(Over()) ==> state != Bound
      ensures old(state) == Disabled ==> state == DiscoverSent && first == ticks
      ensures old(state) != Disabled ==> first == old(first)
      ensures old(state) == Disabled ==> sent == [Discover(xid)]
      ensures !old(Over()) && old(state) != Disabled && ticks < old(last) + RETRY_TICKS ==> state == old(state) && sent == old(sent)
      ensures !old(Over()) && old(state) != Disabled && ticks >= old(last) + RETRY_TICKS && old(retries) >= MAX_RETRIES ==>
        state == Failed && sent == old(sent)
      ensures !old(Over()) && old(state) != Disabled && ticks >= old(last) + RETRY_TICKS && old(retries) < MAX_RETRIES ==>
        state == old(state) && sent == old(sent) + [if state == DiscoverSent then Discover(xid) else Request(xid, offered, server)]
    {
      ticks := ticks + 1;
      if Over() {
        return;
      }
      if state == Disabled {
        Send(Discover(xid), DiscoverSent);
        return;
      }
      Elapsed(ticks, last);
      if (ticks - lastEvent) % U32 < RETRY_TICKS {
        return;
      }
      if retries >= MAX_RETRIES {
        state := Failed;
        return;
      }
      if state == DiscoverSent {
        Send(Discover(xid), DiscoverSent);
      } else {
        Send(Request(xid, offered, server), RequestSent);
      }
    }
  }

  lemma Elapsed(now: nat, last: nat)
    requires last <= now < last + U32
    ensures (now - last % U32) % U32 == now - last
  {
  }
}
