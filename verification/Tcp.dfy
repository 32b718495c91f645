/**
 * One connection of the stop-and-wait TCP client: the functions say what each
 * entry point does to the connection and which segments it transmits; the class
 * is the connection itself, with its buffers, proved against them.
 */
module Tcp {
  import opened Common

  const RX_BUF: nat := 4096
  const TX_BUF: nat := 1200
  const RETRY_TICKS: nat := 200
  const MAX_RETRIES: nat := 8

  datatype State = Free | SynSent | Established | Closed

  datatype Flags = Flags(syn: bool, ack: bool, fin: bool, rst: bool, psh: bool)

  const SYN: Flags := Flags(true, false, false, false, false)
  const ACK: Flags := Flags(false, true, false, false, false)
  const DATA: Flags := Flags(false, true, false, false, true)
  const FINISH: Flags := Flags(false, true, true, false, false)

  datatype Segment = Segment(seqNo: nat, ackNo: nat, flags: Flags, payload: Bytes)

  /** `struct tcp_conn`; `rx` and `tx` are the used parts of its buffers. */
  datatype Conn = Conn(
    used: bool, state: State, sndUna: nat, sndNxt: nat, rcvNxt: nat, lastTx: nat, retries: nat, peerClosed: bool,
    rx: Bytes, txPending: bool, txSeq: nat, txAck: nat, txFlags: Flags, tx: Bytes)

  /** A connection and the segments that the step transmitted. */
  datatype Step = Step(conn: Conn, out: seq<Segment>)

  const IDLE: Conn := Conn(false, Free, 0, 0, 0, 0, 0, false, [], false, 0, 0, SYN, [])

  /** `tcp_send_on_conn` without and with tracking; `link` says whether the frame could be sent. */
  function Transmit(c: Conn, seg: Segment, now: nat, link: bool): Step
  {
    if link then Step(c.(lastTx := now % U32), [seg]) else Step(c, [])
  }

  function Kept(c: Conn, seg: Segment): Conn
  {
    c.(txPending := true, txSeq := seg.seqNo, txAck := seg.ackNo, txFlags := seg.flags,
       tx := if |seg.payload| > TX_BUF then seg.payload[..TX_BUF] else seg.payload)
  }

  function Track(c: Conn, seg: Segment, now: nat, link: bool): Step
  {
    if link then Step(Kept(c.(lastTx := now % U32, retries := 0), seg), [seg]) else Step(c, [])
  }

  function Opened(iss: nat): Conn
  {
    IDLE.(used := true, state := SynSent, sndUna := iss, sndNxt := (iss + 1) % U32)
  }

  /** `net_tcp_connect` on a free slot, with the initial sequence number it computes. */
  function Connect(iss: nat, now: nat, link: bool): Step
  {
    Track(Opened(iss), Segment(iss, 0, SYN, []), now, link)
  }

  datatype SendResult = Sent(count: nat) | Invalid | NotConnected | TooLong | Again

  /** `net_tcp_send`. */
  function Send(c: Conn, data: Bytes, now: nat, link: bool): (Step, SendResult)
  {
    if !c.used || data == [] then (Step(c, []), Invalid)
    else if !c.state.Established? || c.peerClosed then (Step(c, []), NotConnected)
    else if |data| > TX_BUF then (Step(c, []), TooLong)
    else if c.txPending || !link then (Step(c, []), Again)
    else
      var s := Track(c, Segment(c.sndNxt, c.rcvNxt, DATA, data), now, link);
      (s.(conn := s.conn.(sndNxt := (c.sndNxt + |data|) % U32)), Sent(|data|))
  }

  datatype RecvResult = Data(bytes: Bytes) | End | Nothing | BadCall

  /** `net_tcp_recv`: the connection afterwards and what the caller gets. */
  function Recv(c: Conn, len: nat): (Conn, RecvResult)
  {
    if !c.used || len == 0 then (c, BadCall)
    else if c.rx == [] then (c, if c.peerClosed then End else Nothing)
    else
      var n := if len < |c.rx| then len else |c.rx|;
      (c.(rx := c.rx[n..]), Data(c.rx[..n]))
  }

  /** The acknowledgement part of a segment on an established connection. */
  function TakeAck(c: Conn, seg: Segment): Conn
  {
    if seg.flags.ack && seg.ackNo > c.sndUna then
      if c.txPending && seg.ackNo >= c.txSeq + |c.tx| then c.(sndUna := seg.ackNo, txPending := false, tx := [])
      else c.(sndUna := seg.ackNo)
    else c
  }

  /** How much of an in-order payload fits. */
  function Room(c: Conn, seg: Segment): (n: nat)
    requires |c.rx| <= RX_BUF
    ensures n <= |seg.payload| && n <= RX_BUF - |c.rx|
  {
    if |seg.payload| < RX_BUF - |c.rx| then |seg.payload| else RX_BUF - |c.rx|
  }

  function AckSegment(c: Conn): Segment { Segment(c.sndNxt, c.rcvNxt, ACK, []) }

  function TakePayload(c: Conn, seg: Segment, now: nat, link: bool): Step
    requires |c.rx| <= RX_BUF
  {
    if seg.payload == [] then Step(c, [])
    else
      var n := Room(c, seg);
      var c' := if seg.seqNo == c.rcvNxt then c.(rx := c.rx + seg.payload[..n], rcvNxt := (c.rcvNxt + n) % U32) else c;
      Transmit(c', AckSegment(c'), now, link)
  }

  function TakeFin(c: Conn, seg: Segment, now: nat, link: bool): Step
  {
    if !seg.flags.fin then Step(c, [])
    else
      var next := if (seg.seqNo + |seg.payload|) % U32 == c.rcvNxt then (c.rcvNxt + 1) % U32 else c.rcvNxt;
      var c' := c.(rcvNxt := next, peerClosed := true);
      Transmit(c', AckSegment(c'), now, link)
  }

  /** The TCP branch of `net_rx_frame` for a segment of this connection. */
  function Receive(c: Conn, seg: Segment, now: nat, link: bool): Step
    requires |c.rx| <= RX_BUF
  {
    if seg.flags.rst then Step(c.(state := Closed, used := false), [])
    else if c.state.SynSent? then
      if seg.flags.syn && seg.flags.ack && seg.ackNo == c.sndNxt then
        var c' := c.(rcvNxt := (seg.seqNo + 1) % U32, sndUna := seg.ackNo, state := Established, txPending := false);
        Transmit(c', AckSegment(c'), now, link)
      else Step(c, [])
    else if !c.state.Established? then Step(c, [])
    else
      var s := TakePayload(TakeAck(c, seg), seg, now, link);
      var t := TakeFin(s.conn, seg, now, link);
      Step(t.conn, s.out + t.out)
  }

  /** The retransmission loop of `net_tick`, for one connection. */
  function Tick(c: Conn, now: nat, link: bool): Step
  {
    if !c.used || c.state.Closed? then Step(c, [])
    else if (now - c.lastTx) % U32 < RETRY_TICKS then Step(c, [])
    else if c.retries >= MAX_RETRIES then Step(c.(state := Closed, used := false), [])
    else
      var c' := c.(retries := c.retries + 1);
      if c.state.SynSent? then Transmit(c', Segment(c.sndUna, 0, SYN, []), now, link)
      else if c.state.Established? && c.txPending then Transmit(c', Segment(c.txSeq, c.txAck, c.txFlags, c.tx), now, link)
      else Step(c', [])
  }

  /** `memcpy` of `src` into `dst` at `at`. */
  method CopyIn(dst: array<bv8>, at: nat, src: Bytes)
    requires at + |src| <= dst.Length
    modifies dst
    ensures dst[..at + |src|] == old(dst[..at]) + src
  {
    for i := 0 to |src|
      invariant dst[..at + i] == old(dst[..at]) + src[..i]
    {
      dst[at + i] := src[i];
    }
    assert src[..|src|] == src;
  }

  /** The loop that moves the unread bytes to the front of the receive buffer. */
  method MoveDown(buf: array<bv8>, n: nat, len: nat)
    requires n <= len <= buf.Length
    modifies buf
    ensures buf[..len - n] == old(buf[n..len])
  {
    for i := n to len
      invariant forall k :: 0 <= k < i - n ==> buf[k] == old(buf[n + k])
      invariant forall k :: i - n <= k < buf.Length ==> buf[k] == old(buf[k])
    {
      buf[i - n] := buf[i];
    }
    assert forall k :: 0 <= k < len - n ==> buf[..len - n][k] == old(buf[n..len])[k];
  }

  /** `struct tcp_conn` itself. */
  class Connection {
    var used: bool
    var state: State
    var sndUna: nat
    var sndNxt: nat
    var rcvNxt: nat
    var lastTx: nat
    var retries: nat
    var peerClosed: bool
    const rxBuf: array<bv8>
    var rxLen: nat
    var txPending: bool
    var txSeq: nat
    var txAck: nat
    var txFlags: Flags
    const txBuf: array<bv8>
    var txLen: nat

    ghost predicate Valid()
      reads this
    {
      rxBuf.Length == RX_BUF && txBuf.Length == TX_BUF && rxBuf != txBuf && rxLen <= RX_BUF && txLen <= TX_BUF
    }

    ghost function View(): Conn
      requires Valid()
      reads this, rxBuf, txBuf
    {
      Conn(used, state, sndUna, sndNxt, rcvNxt, lastTx, retries, peerClosed, rxBuf[..rxLen],
           txPending, txSeq, txAck, txFlags, txBuf[..txLen])
    }

    constructor ()
      ensures Valid() && fresh(rxBuf) && fresh(txBuf)
      ensures View() == IDLE
    {
      used, state, sndUna, sndNxt, rcvNxt, lastTx, retries, peerClosed := false, Free, 0, 0, 0, 0, 0, false;
      rxBuf := new bv8[RX_BUF](_ => 0);
      rxLen, txPending, txSeq, txAck, txFlags, txLen := 0, false, 0, 0, SYN, 0;
      txBuf := new bv8[TX_BUF](_ => 0);
    }

    method SendUntracked(seg: Segment, now: nat, link: bool) returns (out: seq<Segment>)
      requires Valid()
      modifies `lastTx
      ensures Valid()
      ensures Step(View(), out) == Transmit(old(View()), seg, now, link)
    {
      if !link {
        return [];
      }
      lastTx := now % U32;
      return [seg];
    }

    method Remember(seg: Segment)
      requires Valid()
      modifies `txPending, `txSeq, `txAck, `txFlags, `txLen, txBuf
      ensures Valid()
      ensures View() == Kept(old(View()), seg)
    {
      txPending, txSeq, txAck, txFlags := true, seg.seqNo, seg.ackNo, seg.flags;
      var n := if |seg.payload| > TX_BUF then TX_BUF else |seg.payload|;
      CopyIn(txBuf, 0, seg.payload[..n]);
      txLen := n;
      assert txBuf[..txLen] == seg.payload[..n];
    }

    method SendTracked(seg: Segment, now: nat, link: bool) returns (out: seq<Segment>)
      requires Valid()
      modifies `lastTx, `retries, `txPending, `txSeq, `txAck, `txFlags, `txLen, txBuf
      ensures Valid()
      ensures Step(View(), out) == Track(old(View()), seg, now, link)
    {
      if link {
        lastTx, retries := now % U32, 0;
        Remember(seg);
        out := [seg];
      } else {
        out := [];
      }
    }

    method ClearSend()
      requires Valid()
      modifies `lastTx, `retries, `txPending, `txSeq, `txAck, `txFlags, `txLen
      ensures Valid()
      ensures View() == old(View()).(lastTx := 0, retries := 0, txPending := false, txSeq := 0, txAck := 0,
                                     txFlags := SYN, tx := [])
    {
      lastTx, retries, txPending, txSeq, txAck, txFlags, txLen := 0, 0, false, 0, 0, SYN, 0;
      assert txBuf[..txLen] == [];
    }

    method ClearReceive()
      requires Valid()
      modifies `rcvNxt, `peerClosed, `rxLen
      ensures Valid()
      ensures View() == old(View()).(rcvNxt := 0, peerClosed := false, rx := [])
    {
      rcvNxt, peerClosed, rxLen := 0, false, 0;
    }

    method Reset(iss: nat)
      requires Valid()
      modifies this
      ensures Valid()
      ensures View() == Opened(iss)
    {
      used, state, sndUna, sndNxt := true, SynSent, iss, (iss + 1) % U32;
      ClearSend();
      ClearReceive();
    }

    method Open(iss: nat, now: nat, link: bool) returns (out: seq<Segment>)
      requires Valid()
      modifies this, txBuf
      ensures Valid()
      ensures Step(View(), out) == Connect(iss, now, link)
    {
      Reset(iss);
      out := SendTracked(Segment(iss, 0, SYN, []), now, link);
    }

    method Write(data: Bytes, now: nat, link: bool) returns (out: seq<Segment>, r: SendResult)
      requires Valid()
      modifies this, txBuf
      ensures Valid()
      ensures (Step(View(), out), r) == Send(old(View()), data, now, link)
    {
      if !used || data == [] {
        return [], Invalid;
      }
      if state != Established || peerClosed {
        return [], NotConnected;
      }
      if |data| > TX_BUF {
        return [], TooLong;
      }
      if txPending {
        return [], Again;
      }
      out := SendTracked(Segment(sndNxt, rcvNxt, DATA, data), now, link);
      if out == [] {
        return out, Again;
      }
      sndNxt := (sndNxt + |data|) % U32;
      r := Sent(|data|);
    }

    method Read(len: nat) returns (r: RecvResult)
      requires Valid()
      modifies `rxLen, rxBuf
      ensures Valid()
      ensures (View(), r) == Recv(old(View()), len)
    {
      if !used || len == 0 {
        return BadCall;
      }
      if rxLen == 0 {
        return if peerClosed then End else Nothing;
      }
      var n := if len < rxLen then len else rxLen;
      r := Data(rxBuf[..n]);
      MoveDown(rxBuf, n, rxLen);
      rxLen := rxLen - n;
      assert old(rxBuf[n..rxLen]) == old(View()).rx[n..] && old(rxBuf[..n]) == old(View()).rx[..n];
    }

    method AcceptAck(seg: Segment)
      requires Valid()
      modifies `sndUna, `txPending, `txLen
      ensures Valid()
      ensures View() == TakeAck(old(View()), seg)
    {
      if seg.flags.ack && seg.ackNo > sndUna {
        sndUna := seg.ackNo;
        if txPending && seg.ackNo >= txSeq + txLen {
          txPending, txLen := false, 0;
        }
      }
    }

    method AcceptPayload(seg: Segment, now: nat, link: bool) returns (out: seq<Segment>)
      requires Valid()
      modifies `rxLen, `rcvNxt, `lastTx, rxBuf
      ensures Valid()
      ensures Step(View(), out) == TakePayload(old(View()), seg, now, link)
    {
      if seg.payload == [] {
        return [];
      }
      if seg.seqNo == rcvNxt {
        var room := RX_BUF - rxLen;
        var n := if |seg.payload| < room then |seg.payload| else room;
        CopyIn(rxBuf, rxLen, seg.payload[..n]);
        rxLen, rcvNxt := rxLen + n, (rcvNxt + n) % U32;
      }
      out := SendUntracked(Segment(sndNxt, rcvNxt, ACK, []), now, link);
    }

    method AcceptFin(seg: Segment, now: nat, link: bool) returns (out: seq<Segment>)
      requires Valid()
      modifies `rcvNxt, `peerClosed, `lastTx
      ensures Valid()
      ensures Step(View(), out) == TakeFin(old(View()), seg, now, link)
    {
      if !seg.flags.fin {
        return [];
      }
      if (seg.seqNo + |seg.payload|) % U32 == rcvNxt {
        rcvNxt := (rcvNxt + 1) % U32;
      }
      peerClosed := true;
      out := SendUntracked(Segment(sndNxt, rcvNxt, ACK, []), now, link);
    }

    method OnSegment(seg: Segment, now: nat, link: bool) returns (out: seq<Segment>)
      requires Valid()
      modifies this, rxBuf
      ensures Valid()
      ensures Step(View(), out) == Receive(old(View()), seg, now, link)
    {
      if seg.flags.rst {
        state, used := Closed, false;
        return [];
      }
      if state == SynSent {
        if seg.flags.syn && seg.flags.ack && seg.ackNo == sndNxt {
          rcvNxt, sndUna, state, txPending := (seg.seqNo + 1) % U32, seg.ackNo, Established, false;
          out := SendUntracked(Segment(sndNxt, rcvNxt, ACK, []), now, link);
        } else {
          out := [];
        }
        return;
      }
      if state != Established {
        return [];
      }
      out := OnEstablished(seg, now, link);
    }

    method OnEstablished(seg: Segment, now: nat, link: bool) returns (out: seq<Segment>)
      requires Valid()
      modifies `sndUna, `txPending, `txLen, `rxLen, `rcvNxt, `peerClosed, `lastTx, rxBuf
      ensures Valid()
      ensures var s := TakePayload(TakeAck(old(View()), seg), seg, now, link);
        var t := TakeFin(s.conn, seg, now, link);
        Step(View(), out) == Step(t.conn, s.out + t.out)
    {
      hide View, TakeAck, TakePayload, TakeFin;
      AcceptAck(seg);
      var acks := AcceptPayload(seg, now, link);
      out := AcceptFin(seg, now, link);
      out := acks + out;
    }

    method OnTick(now: nat, link: bool) returns (out: seq<Segment>)
      requires Valid()
      modifies `state, `used, `retries, `lastTx
      ensures Valid()
      ensures Step(View(), out) == Tick(old(View()), now, link)
    {
      if !used || state == Closed || (now - lastTx) % U32 < RETRY_TICKS {
        return [];
      }
      if retries >= MAX_RETRIES {
        state, used := Closed, false;
        return [];
      }
      retries := retries + 1;
      if state == SynSent {
        out := SendUntracked(Segment(sndUna, 0, SYN, []), now, link);
      } else if state == Established && txPending {
        out := SendUntracked(Segment(txSeq, txAck, txFlags, txBuf[..txLen]), now, link);
      } else {
        out := [];
      }
    }
  }
}
