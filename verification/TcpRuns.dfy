/**
 * The connection, a conforming peer and a network that may lose, repeat, delay and reorder
 * segments: every segment ever sent stays available and may arrive any number of times.
 */
module TcpRuns {
  import opened Common
  import opened Tcp
  import opened Lists

  /** `stream` is everything the peer will ever send; `app` is what it has taken from us. */
  datatype Peer = Peer(irs: nat, stream: Bytes, heardSyn: bool, app: Bytes)

  /** `sent` and `delivered` are what our application has written and read so far. */
  datatype World = World(
    iss: nat, conn: Conn, sent: Bytes, delivered: Bytes, outbound: set<Segment>, inbound: set<Segment>, peer: Peer)

  datatype Event =
    | AppWrite(data: Bytes, now: nat, link: bool)
    | AppRead(len: nat)
    | TimerTick(now: nat, link: bool)
    | Arrives(seg: Segment, now: nat, link: bool)
    | PeerSends(seg: Segment)
    | PeerTakes(seg: Segment, n: nat)

  /** The segment's payload is what `stream`, whose first byte is numbered `base`, has at its number. */
  predicate Carries(stream: Bytes, base: nat, seg: Segment)
  {
    base <= seg.seqNo && seg.seqNo - base + |seg.payload| <= |stream| &&
    seg.payload == stream[seg.seqNo - base..seg.seqNo - base + |seg.payload|]
  }

  /** What a conforming peer may send. */
  predicate MaySend(iss: nat, p: Peer, seg: Segment)
  {
    if seg.flags.rst then true
    else if seg.flags.syn then
      p.heardSyn && seg.flags.ack && !seg.flags.fin && seg.seqNo == p.irs && seg.ackNo == iss + 1 && seg.payload == []
    else
      p.heardSyn && (seg.flags.ack ==> seg.ackNo == iss + 1 + |p.app|) &&
      (seg.payload != [] || seg.flags.fin ==> Carries(p.stream, p.irs + 1, seg)) &&
      (seg.flags.fin ==> seg.seqNo + |seg.payload| == p.irs + 1 + |p.stream|)
  }

  /** What a conforming peer takes from a segment: `n` bytes that follow what it already has. */
  function Taken(iss: nat, p: Peer, seg: Segment, n: nat): Peer
  {
    if seg.flags.syn then p.(heardSyn := true)
    else
      var next := iss + 1 + |p.app|;
      if p.heardSyn && seg.seqNo <= next && next + n <= seg.seqNo + |seg.payload| then
        p.(app := p.app + seg.payload[next - seg.seqNo..next - seg.seqNo + n])
      else p
  }

  predicate Enabled(w: World, e: Event)
  {
    match e
    case AppWrite(data, _, _) => w.iss + 1 + |w.sent| + |data| < U32
    case Arrives(seg, _, _) => seg in w.inbound
    case PeerSends(seg) => MaySend(w.iss, w.peer, seg)
    case PeerTakes(seg, _) => seg in w.outbound
    case _ => true
  }

  function Transmitted(s: Step): set<Segment>
  {
    set i | 0 <= i < |s.out| :: s.out[i]
  }

  function Next(w: World, e: Event): World
    requires |w.conn.rx| <= RX_BUF
  {
    match e
    case AppWrite(data, now, link) =>
      var (s, r) := Send(w.conn, data, now, link);
      w.(conn := s.conn, outbound := w.outbound + Transmitted(s), sent := if r.Sent? then w.sent + data else w.sent)
    case AppRead(len) =>
      var (c, r) := Recv(w.conn, len);
      w.(conn := c, delivered := if r.Data? then w.delivered + r.bytes else w.delivered)
    case TimerTick(now, link) =>
      var s := Tick(w.conn, now, link);
      w.(conn := s.conn, outbound := w.outbound + Transmitted(s))
    case Arrives(seg, now, link) =>
      var s := Receive(w.conn, seg, now, link);
      w.(conn := s.conn, outbound := w.outbound + Transmitted(s))
    case PeerSends(seg) => w.(inbound := w.inbound + {seg})
    case PeerTakes(seg, n) => w.(peer := Taken(w.iss, w.peer, seg, n))
  }

  /** Our half: what is unacknowledged lies inside the one remembered segment. */
  predicate Sending(iss: nat, c: Conn, sent: Bytes)
  {
    match c.state
    case SynSent => sent == [] && c.sndUna == iss && c.sndNxt == iss + 1 < U32 && c.tx == []
    case Established =>
      iss + 1 <= c.sndUna <= c.sndNxt == iss + 1 + |sent| < U32 &&
      (!c.txPending ==> c.sndUna == c.sndNxt) &&
      (c.txPending ==>
         iss + 1 <= c.txSeq <= c.sndUna < c.txSeq + |c.tx| == c.sndNxt && c.tx == sent[c.txSeq - (iss + 1)..] &&
         c.txFlags == DATA)
    case _ => true
  }

  /** The peer's half: what was taken is a prefix of its stream, as long as `rcvNxt` says. */
  predicate Receiving(p: Peer, c: Conn, delivered: Bytes)
    ensures Receiving(p, c, delivered) ==> |c.rx| <= RX_BUF
  {
    |c.rx| <= RX_BUF && delivered + c.rx <= p.stream && p.irs + 2 + |p.stream| < U32 &&
    (c.state.SynSent? ==> delivered + c.rx == []) &&
    (c.state.Established? ==> Count(p, c, |delivered| + |c.rx|))
  }

  predicate Count(p: Peer, c: Conn, n: nat)
  {
    c.rcvNxt == p.irs + 1 + n || (n == |p.stream| && c.rcvNxt == p.irs + 2 + n)
  }

  predicate Honest(iss: nat, sent: Bytes, seg: Segment)
  {
    (seg.payload != [] ==> Carries(sent, iss + 1, seg)) && (seg.flags.syn ==> seg.seqNo == iss && seg.payload == [])
  }

  predicate Conforming(iss: nat, p: Peer, seg: Segment)
  {
    seg.flags.rst ||
    ((seg.flags.ack ==> seg.ackNo <= iss + 1 + |p.app|) &&
     (seg.flags.syn ==> !seg.flags.fin && seg.seqNo == p.irs && seg.payload == []) &&
     (seg.payload != [] || seg.flags.fin ==> Carries(p.stream, p.irs + 1, seg)) &&
     (seg.flags.fin ==> seg.seqNo + |seg.payload| == p.irs + 1 + |p.stream|))
  }

  ghost predicate Invariant(w: World)
  {
    Sending(w.iss, w.conn, w.sent) && Receiving(w.peer, w.conn, w.delivered) && w.peer.app <= w.sent &&
    (w.conn.state.Free? ==> w.sent == []) &&
    (forall seg :: seg in w.outbound ==> Honest(w.iss, w.sent, seg)) &&
    (forall seg :: seg in w.inbound ==> Conforming(w.iss, w.peer, seg))
  }

  lemma HonestGrows(iss: nat, sent: Bytes, more: Bytes, seg: Segment)
    requires Honest(iss, sent, seg)
    ensures Honest(iss, sent + more, seg)
  {
    if seg.payload != [] {
      var k := seg.seqNo - (iss + 1);
      assert (sent + more)[k..k + |seg.payload|] == sent[k..k + |seg.payload|];
    }
  }

  lemma AckKeeps(w: World, seg: Segment)
    requires Invariant(w) && w.conn.state.Established? && Conforming(w.iss, w.peer, seg) && !seg.flags.rst
    ensures Invariant(w.(conn := TakeAck(w.conn, seg)))
  {
  }

  /** An in-order payload extends what was taken by what the stream has there. */
  lemma PayloadReceives(w: World, seg: Segment, now: nat, link: bool)
    requires Receiving(w.peer, w.conn, w.delivered) && w.conn.state.Established? && Conforming(w.iss, w.peer, seg) && !seg.flags.rst
    ensures Receiving(w.peer, TakePayload(w.conn, seg, now, link).conn, w.delivered)
  {
    hide Receiving, TakePayload, Carries;
    var c, d := w.conn, TakePayload(w.conn, seg, now, link).conn;
    PayloadFields(c, seg, now, link);
    if seg.payload != [] && seg.seqNo == c.rcvNxt {
      StreamGrows(w.peer, c, d, w.delivered, seg, Room(c, seg));
    } else {
      ReceivingSame(w.peer, c, d, w.delivered);
    }
  }

  lemma PayloadFields(c: Conn, seg: Segment, now: nat, link: bool)
    requires |c.rx| <= RX_BUF
    ensures var d := TakePayload(c, seg, now, link).conn;
      d.state == c.state &&
      if seg.payload != [] && seg.seqNo == c.rcvNxt
      then d.rx == c.rx + seg.payload[..Room(c, seg)] && d.rcvNxt == (c.rcvNxt + Room(c, seg)) % U32
      else d.rx == c.rx && d.rcvNxt == c.rcvNxt
  {}

  lemma ReceivingSame(p: Peer, c: Conn, d: Conn, delivered: Bytes)
    requires Receiving(p, c, delivered) && d.state == c.state && d.rx == c.rx && d.rcvNxt == c.rcvNxt
    ensures Receiving(p, d, delivered)
  {}

  lemma StreamGrows(p: Peer, c: Conn, d: Conn, delivered: Bytes, seg: Segment, n: nat)
    requires Receiving(p, c, delivered) && c.state.Established? && Carries(p.stream, p.irs + 1, seg) && seg.payload != []
    requires seg.seqNo == c.rcvNxt && n <= |seg.payload| && |c.rx| + n <= RX_BUF
    requires d.state == c.state && d.rx == c.rx + seg.payload[..n] && d.rcvNxt == (c.rcvNxt + n) % U32
    ensures Receiving(p, d, delivered)
  {
    var k := |delivered| + |c.rx|;
    assert c.rcvNxt == p.irs + 1 + k;
    TakesSlice(p.stream, delivered + c.rx, seg.payload, k, 0, n);
    assert seg.payload[0..n] == seg.payload[..n];
    assert delivered + d.rx == delivered + c.rx + seg.payload[..n];
  }

  lemma PayloadKeeps(w: World, seg: Segment, now: nat, link: bool)
    requires Invariant(w) && w.conn.state.Established? && Conforming(w.iss, w.peer, seg) && !seg.flags.rst
    ensures Invariant(w.(conn := TakePayload(w.conn, seg, now, link).conn))
  {
    hide Honest, Sending, Receiving, Conforming;
    PayloadReceives(w, seg, now, link);
    PayloadSends(w, seg, now, link);
  }

  /** Taking a payload leaves the sending half alone. */
  lemma PayloadSends(w: World, seg: Segment, now: nat, link: bool)
    requires |w.conn.rx| <= RX_BUF && Sending(w.iss, w.conn, w.sent)
    ensures Sending(w.iss, TakePayload(w.conn, seg, now, link).conn, w.sent)
  {
    var c, d := w.conn, TakePayload(w.conn, seg, now, link).conn;
    assert d.state == c.state && d.sndUna == c.sndUna && d.sndNxt == c.sndNxt && d.tx == c.tx && d.txPending == c.txPending &&
           d.txSeq == c.txSeq && d.txFlags == c.txFlags;
  }

  lemma FinKeeps(w: World, seg: Segment, now: nat, link: bool)
    requires Invariant(w) && w.conn.state.Established? && Conforming(w.iss, w.peer, seg) && !seg.flags.rst
    ensures Invariant(w.(conn := TakeFin(w.conn, seg, now, link).conn))
  {
    assert |w.delivered + w.conn.rx| <= |w.peer.stream|;
  }

  /** Acknowledgements carry no data, so transmitting them keeps the outbound side honest. */
  lemma AcksAreHonest(w: World, seg: Segment, now: nat, link: bool, x: Segment)
    requires Invariant(w) && x in Receive(w.conn, seg, now, link).out
    ensures Honest(w.iss, w.sent, x)
  {
  }

  lemma OpeningKeeps(w: World, seg: Segment, now: nat, link: bool)
    requires Invariant(w) && (!w.conn.state.Established? || seg.flags.rst) && Conforming(w.iss, w.peer, seg)
    ensures Invariant(w.(conn := Receive(w.conn, seg, now, link).conn))
  {
    hide Honest;
  }

  lemma ArrivesKeeps(w: World, seg: Segment, now: nat, link: bool)
    requires Invariant(w) && seg in w.inbound
    ensures Invariant(Next(w, Arrives(seg, now, link)))
  {
    hide Honest, Conforming, Sending, Receiving;
    var w' := Next(w, Arrives(seg, now, link));
    forall x | x in w'.outbound ensures Honest(w.iss, w.sent, x) {
      if x !in w.outbound { AcksAreHonest(w, seg, now, link, x); }
    }
    if w.conn.state.Established? && !seg.flags.rst {
      var w1 := w.(conn := TakeAck(w.conn, seg));
      AckKeeps(w, seg);
      PayloadKeeps(w1, seg, now, link);
      FinKeeps(w1.(conn := TakePayload(w1.conn, seg, now, link).conn), seg, now, link);
    } else {
      OpeningKeeps(w, seg, now, link);
    }
  }

  lemma FreshIsHonest(w: World, data: Bytes, x: Segment)
    requires Sending(w.iss, w.conn, w.sent) && w.conn.state.Established? && x == Segment(w.conn.sndNxt, w.conn.rcvNxt, DATA, data)
    ensures Honest(w.iss, w.sent + data, x)
  {
    assert (w.sent + data)[|w.sent|..|w.sent| + |data|] == data;
  }

  lemma WriteKeeps(w: World, data: Bytes, now: nat, link: bool)
    requires Invariant(w) && w.iss + 1 + |w.sent| + |data| < U32
    ensures Invariant(Next(w, AppWrite(data, now, link)))
  {
    hide Honest, Conforming;
    var w' := Next(w, AppWrite(data, now, link));
    var (s, r) := Send(w.conn, data, now, link);
    if r.Sent? {
      assert (w.sent + data)[|w.sent|..] == data;
      forall x | x in w'.outbound ensures Honest(w.iss, w'.sent, x) {
        if x in w.outbound { HonestGrows(w.iss, w.sent, data, x); } else { FreshIsHonest(w, data, x); }
      }
    }
  }

  lemma ReadKeeps(w: World, len: nat)
    requires Invariant(w)
    ensures Invariant(Next(w, AppRead(len)))
  {
    var (c, r) := Recv(w.conn, len);
    if r.Data? {
      assert (w.delivered + r.bytes) + c.rx == w.delivered + w.conn.rx;
    }
  }

  /** What the timer sends again is what was sent the first time. */
  lemma ResendsAreHonest(w: World, now: nat, link: bool, x: Segment)
    requires Invariant(w) && x in Tick(w.conn, now, link).out
    ensures Honest(w.iss, w.sent, x)
  {
    hide Conforming, Receiving;
    var c, base := w.conn, w.iss + 1;
    if c.state.Established? {
      assert w.sent[c.txSeq - base..] == w.sent[c.txSeq - base..c.txSeq - base + |c.tx|];
    }
  }

  /** The fields that sending and receiving depend on are the same, or the connection is closed. */
  predicate Alike(c: Conn, d: Conn)
  {
    d.rx == c.rx &&
    (d.state.Closed? || (d.state == c.state && d.sndUna == c.sndUna && d.sndNxt == c.sndNxt && d.rcvNxt == c.rcvNxt && d.tx == c.tx &&
                         d.txPending == c.txPending && d.txSeq == c.txSeq && d.txFlags == c.txFlags))
  }

  lemma AlikeKeeps(iss: nat, p: Peer, c: Conn, d: Conn, sent: Bytes, delivered: Bytes)
    requires Alike(c, d) && Sending(iss, c, sent) && Receiving(p, c, delivered)
    ensures Sending(iss, d, sent) && Receiving(p, d, delivered)
  {
  }

  lemma TickAlike(c: Conn, now: nat, link: bool)
    ensures Alike(c, Tick(c, now, link).conn)
  {
  }

  lemma TickKeeps(w: World, now: nat, link: bool)
    requires Invariant(w)
    ensures Invariant(Next(w, TimerTick(now, link)))
  {
    hide Honest, Conforming, Sending, Receiving;
    TickAlike(w.conn, now, link);
    AlikeKeeps(w.iss, w.peer, w.conn, Tick(w.conn, now, link).conn, w.sent, w.delivered);
    var w' := Next(w, TimerTick(now, link));
    forall x | x in w'.outbound ensures Honest(w.iss, w.sent, x) {
      if x !in w.outbound { ResendsAreHonest(w, now, link, x); }
    }
  }

  lemma TakesKeeps(w: World, seg: Segment, n: nat)
    requires Invariant(w) && seg in w.outbound
    ensures Invariant(Next(w, PeerTakes(seg, n)))
  {
    hide Sending, Receiving, Conforming;
    var p, p' := w.peer, Taken(w.iss, w.peer, seg, n);
    if p'.app != p.app {
      assert Honest(w.iss, w.sent, seg);
      TakesSlice(w.sent, p.app, seg.payload, seg.seqNo - (w.iss + 1), w.iss + 1 + |p.app| - seg.seqNo, n);
    }
    PeerKeeps(w, p');
  }

  /** A piece of the written bytes that follows what was taken already. */
  lemma TakesSlice(sent: Bytes, app: Bytes, payload: Bytes, base: nat, k: nat, n: nat)
    requires app <= sent && base + |payload| <= |sent| && payload == sent[base..base + |payload|]
    requires base + k == |app| && k + n <= |payload|
    ensures app + payload[k..k + n] <= sent
  {
    SliceOfSlice(sent, base, |payload|, k, n);
    PrefixGrows(sent, app, n);
  }

  /** A peer that has heard or taken more still conforms. */
  lemma PeerKeeps(w: World, p: Peer)
    requires Invariant(w) && p.irs == w.peer.irs && p.stream == w.peer.stream && |w.peer.app| <= |p.app| && p.app <= w.sent
    ensures Invariant(w.(peer := p))
  {
    hide Honest, Sending;
    forall seg | seg in w.inbound ensures Conforming(w.iss, p, seg) {
      assert Conforming(w.iss, w.peer, seg);
    }
  }

  lemma NextKeeps(w: World, e: Event)
    requires Invariant(w) && Enabled(w, e)
    ensures Invariant(Next(w, e))
  {
    match e
    case AppWrite(data, now, link) => WriteKeeps(w, data, now, link);
    case AppRead(len) => ReadKeeps(w, len);
    case TimerTick(now, link) => TickKeeps(w, now, link);
    case Arrives(seg, now, link) => ArrivesKeeps(w, seg, now, link);
    case PeerSends(seg) =>
    case PeerTakes(seg, n) => TakesKeeps(w, seg, n);
  }

  /** How many bytes of the peer's stream were taken so far. */
  function Got(w: World): nat { |w.delivered| + |w.conn.rx| }

  /** An acknowledgement of at most `n` bytes of the peer's stream, and of its end once there is nothing more. */
  predicate Admits(p: Peer, n: nat, ackNo: nat)
  {
    ackNo <= p.irs + 1 + n || (n == |p.stream| && ackNo == p.irs + 2 + n)
  }

  /** Nothing that was sent, or may be sent again, acknowledges a byte that was not taken. */
  ghost predicate Acked(w: World)
  {
    (forall seg :: seg in w.outbound && seg.flags.ack ==> Admits(w.peer, Got(w), seg.ackNo)) &&
    (w.conn.state.Established? && w.conn.txPending ==> Admits(w.peer, Got(w), w.conn.txAck))
  }

  /** Taking more bytes keeps old acknowledgements right. */
  lemma AckedGrows(w: World, w': World)
    requires Acked(w) && Invariant(w') && Got(w) <= Got(w') && w'.peer.irs == w.peer.irs && w'.peer.stream == w.peer.stream
    requires forall seg :: seg in w'.outbound && seg !in w.outbound && seg.flags.ack ==> Admits(w'.peer, Got(w'), seg.ackNo)
    requires w'.conn.state.Established? && w'.conn.txPending ==>
      Admits(w'.peer, Got(w'), w'.conn.txAck) || (w.conn.state.Established? && w.conn.txPending && w'.conn.txAck == w.conn.txAck)
    ensures Acked(w')
  {
    hide Honest, Conforming, Sending;
    assert |w'.delivered + w'.conn.rx| <= |w'.peer.stream|;
  }

  /** What an established connection announces is what it took. */
  lemma CurrentAdmitted(w: World)
    requires Invariant(w) && w.conn.state.Established?
    ensures Admits(w.peer, Got(w), w.conn.rcvNxt)
  {
    hide Honest, Conforming, Sending;
  }

  lemma WriteAcked(w: World, data: Bytes, now: nat, link: bool)
    requires Invariant(w) && Acked(w) && Enabled(w, AppWrite(data, now, link))
    ensures Acked(Next(w, AppWrite(data, now, link)))
  {
    WriteKeeps(w, data, now, link);
    hide Invariant, Admits;
    if w.conn.state.Established? { CurrentAdmitted(w); }
    AckedGrows(w, Next(w, AppWrite(data, now, link)));
  }

  lemma ReadAcked(w: World, len: nat)
    requires Invariant(w) && Acked(w)
    ensures Acked(Next(w, AppRead(len)))
  {
    ReadKeeps(w, len);
    hide Invariant, Admits;
    AckedGrows(w, Next(w, AppRead(len)));
  }

  lemma TickAcked(w: World, now: nat, link: bool)
    requires Invariant(w) && Acked(w)
    ensures Acked(Next(w, TimerTick(now, link)))
  {
    TickKeeps(w, now, link);
    hide Invariant, Admits;
    AckedGrows(w, Next(w, TimerTick(now, link)));
  }

  /** The same connection as far as taking bytes and remembering a segment go. */
  predicate Unmoved(c: Conn, d: Conn)
  {
    d.state == c.state && d.txAck == c.txAck && (d.txPending ==> c.txPending)
  }

  lemma AckMoves(c: Conn, seg: Segment)
    ensures var d := TakeAck(c, seg); Unmoved(c, d) && d.rx == c.rx && d.rcvNxt == c.rcvNxt
  {}

  lemma PayloadMoves(c: Conn, seg: Segment, now: nat, link: bool)
    requires |c.rx| <= RX_BUF
    ensures var s := TakePayload(c, seg, now, link);
      Unmoved(c, s.conn) && |c.rx| <= |s.conn.rx| && s.out == if seg.payload == [] || !link then [] else [AckOf(s.conn)]
  {}

  lemma FinMoves(c: Conn, seg: Segment, now: nat, link: bool)
    ensures var s := TakeFin(c, seg, now, link);
      Unmoved(c, s.conn) && s.conn.rx == c.rx && s.out == if !seg.flags.fin || !link then [] else [AckOf(s.conn)]
    ensures seg.flags.fin ==> TakeFin(c, seg, now, link).conn.peerClosed
  {}

  /** An acknowledgement without data. */
  function AckOf(c: Conn): Segment { Segment(c.sndNxt, c.rcvNxt, Flags(false, true, false, false, false), []) }

  /** What a segment makes an established connection send: acknowledgements of what it then has. */
  lemma AnswerNumbers(c: Conn, seg: Segment, now: nat, link: bool)
    requires c.state.Established? && !seg.flags.rst && |c.rx| <= RX_BUF
    ensures var d := TakePayload(TakeAck(c, seg), seg, now, link).conn;
      var e := Receive(c, seg, now, link).conn;
      e == TakeFin(d, seg, now, link).conn && Unmoved(c, e) && |c.rx| <= |d.rx| && d.rx == e.rx && (!seg.flags.fin ==> e == d) &&
      Receive(c, seg, now, link).out ==
        (if seg.payload == [] || !link then [] else [AckOf(d)]) + (if !seg.flags.fin || !link then [] else [AckOf(e)])
  {
    hide TakeAck, TakePayload, AckOf;
    AckMoves(c, seg);
    PayloadMoves(TakeAck(c, seg), seg, now, link);
    FinMoves(TakePayload(TakeAck(c, seg), seg, now, link).conn, seg, now, link);
  }

  lemma EstablishedAcked(w: World, seg: Segment, now: nat, link: bool)
    requires Invariant(w) && Acked(w) && seg in w.inbound && Conforming(w.iss, w.peer, seg)
    requires w.conn.state.Established? && !seg.flags.rst && |w.conn.rx| <= RX_BUF
    ensures Acked(Next(w, Arrives(seg, now, link)))
  {
    hide Invariant, Admits, Receive, TakePayload, TakeAck, TakeFin, Conforming;
    var w' := Next(w, Arrives(seg, now, link));
    ArrivesKeeps(w, seg, now, link);
    var w1 := w.(conn := TakeAck(w.conn, seg));
    AckMoves(w.conn, seg);
    var w2 := w1.(conn := TakePayload(w1.conn, seg, now, link).conn);
    AckKeeps(w, seg);
    PayloadKeeps(w1, seg, now, link);
    PayloadMoves(w1.conn, seg, now, link);
    AnswerNumbers(w.conn, seg, now, link);
    CurrentAdmitted(w2);
    CurrentAdmitted(w');
    AckedGrows(w, w');
  }

  lemma ArrivesAcked(w: World, seg: Segment, now: nat, link: bool)
    requires Invariant(w) && Acked(w) && seg in w.inbound
    ensures Acked(Next(w, Arrives(seg, now, link)))
  {
    if w.conn.state.Established? && !seg.flags.rst {
      EstablishedAcked(w, seg, now, link);
    } else {
      OpeningAcked(w, seg, now, link);
    }
  }

  lemma OpeningAcked(w: World, seg: Segment, now: nat, link: bool)
    requires Invariant(w) && Acked(w) && seg in w.inbound && (!w.conn.state.Established? || seg.flags.rst)
    ensures Acked(Next(w, Arrives(seg, now, link)))
  {
    ArrivesKeeps(w, seg, now, link);
    var w' := Next(w, Arrives(seg, now, link));
    if w'.conn.state.Established? { CurrentAdmitted(w'); }
    hide Invariant, Admits;
    AckedGrows(w, w');
  }

  lemma NextAcked(w: World, e: Event)
    requires Invariant(w) && Acked(w) && Enabled(w, e)
    ensures Acked(Next(w, e))
  {
    hide Invariant, Acked;
    match e
    case AppWrite(data, now, link) => WriteAcked(w, data, now, link);
    case AppRead(len) => ReadAcked(w, len);
    case TimerTick(now, link) => TickAcked(w, now, link);
    case Arrives(seg, now, link) => ArrivesAcked(w, seg, now, link);
    case PeerSends(seg) => PeerAcked(w, e);
    case PeerTakes(seg, n) => PeerAcked(w, e);
  }

  lemma PeerAcked(w: World, e: Event)
    requires Invariant(w) && Acked(w) && (e.PeerSends? || e.PeerTakes?)
    ensures Acked(Next(w, e))
  {}

  /** The end of the stream has been counted: before, or by this segment because nothing before it is missing. */
  predicate EndCounted(w: World, seg: Segment, c: Conn)
  {
    w.conn.rcvNxt == w.peer.irs + 2 + |w.peer.stream| || (seg.flags.fin && w.delivered + c.rx == w.peer.stream)
  }

  /** The last answer to a segment with data or an end acknowledges exactly the bytes taken so far, and a counted end. */
  lemma AnswerIsExact(w: World, seg: Segment, now: nat, link: bool)
    requires Invariant(w) && seg in w.inbound && w.conn.state.Established? && !seg.flags.rst && |w.conn.rx| <= RX_BUF
    requires link && (seg.payload != [] || seg.flags.fin)
    ensures var s := Receive(w.conn, seg, now, link);
      s.out != [] && s.out[|s.out| - 1].flags.ack && s.out[|s.out| - 1].payload == [] &&
      s.out[|s.out| - 1].ackNo == w.peer.irs + 1 + |w.delivered| + |s.conn.rx| + if EndCounted(w, seg, s.conn) then 1 else 0
  {
    hide Honest, Sending, Receive, TakePayload, TakeAck;
    assert Conforming(w.iss, w.peer, seg);
    var w1 := w.(conn := TakeAck(w.conn, seg));
    AckMoves(w.conn, seg);
    var w2 := w1.(conn := TakePayload(w1.conn, seg, now, link).conn);
    AckKeeps(w, seg);
    PayloadKeeps(w1, seg, now, link);
    PayloadFields(w1.conn, seg, now, link);
    AnswerNumbers(w.conn, seg, now, link);
    WholeIfLong(w.delivered, w2.conn.rx, w.peer.stream);
    AnswerCounts(w, w2.conn, seg, now, link);
  }

  /** How the receive number moves with the payload and then with the end. */
  lemma AnswerCounts(w: World, d: Conn, seg: Segment, now: nat, link: bool)
    requires Receiving(w.peer, w.conn, w.delivered) && Receiving(w.peer, d, w.delivered) && Conforming(w.iss, w.peer, seg) && !seg.flags.rst
    requires w.conn.state.Established? && d.state.Established? && |w.conn.rx| <= |d.rx|
    requires d.rcvNxt == w.conn.rcvNxt + (|d.rx| - |w.conn.rx|)
    ensures var e := TakeFin(d, seg, now, link).conn;
      e.rcvNxt == w.peer.irs + 1 + |w.delivered| + |d.rx| + if EndCounted(w, seg, d) then 1 else 0
  {
    WholeIfLong(w.delivered, d.rx, w.peer.stream);
    WholeIfLong(w.delivered, w.conn.rx, w.peer.stream);
  }

  /** When `net_tcp_send` takes the bytes, and what it then sends and remembers. */
  lemma SendMeans(w: World, data: Bytes, now: nat, link: bool)
    requires Invariant(w)
    ensures var (s, r) := Send(w.conn, data, now, link);
      (r.Sent? <==> w.conn.used && w.conn.state.Established? && !w.conn.peerClosed && 0 < |data| <= 1200 && !w.conn.txPending && link) &&
      (!r.Sent? ==> s == Step(w.conn, [])) &&
      (r.Sent? ==> s.out == [Segment(w.iss + 1 + |w.sent|, w.conn.rcvNxt, Flags(false, true, false, false, true), data)] &&
                   s.conn.lastTx == now % 0x1_0000_0000 && s.conn.retries == 0)
  {
    hide Honest, Conforming, Receiving;
  }

  /** A retransmission is due: more than 199 ticks have gone since the last transmission. */
  predicate Due(c: Conn, now: nat)
  {
    c.used && !c.state.Closed? && (now - c.lastTx) % 0x1_0000_0000 >= 200
  }

  /** When the timer sends, what it sends, and when it gives up. */
  lemma TickMeans(w: World, now: nat, link: bool)
    requires Invariant(w)
    ensures var c, s := w.conn, Tick(w.conn, now, link);
      (!Due(c, now) ==> s == Step(c, [])) &&
      (Due(c, now) && c.retries >= 8 ==> s.out == [] && s.conn.state.Closed? && !s.conn.used) &&
      (Due(c, now) && c.retries < 8 ==> s.conn.state == c.state && s.conn.retries == c.retries + 1) &&
      (s.out != [] ==> Due(c, now) && c.retries < 8 && link && |s.out| == 1 && s.conn.lastTx == now % 0x1_0000_0000) &&
      (Due(c, now) && c.retries < 8 && link && c.state.SynSent? ==>
         s.out == [Segment(w.iss, 0, Flags(true, false, false, false, false), [])]) &&
      (Due(c, now) && c.retries < 8 && link && c.state.Established? && c.txPending ==>
         |s.out| == 1 && Resends(w, s.out[0]))
  {
    hide Honest, Conforming, Receiving;
    var c, base := w.conn, w.iss + 1;
    if c.state.Established? && c.txPending {
      assert w.sent[c.txSeq - base..] == w.sent[c.txSeq - base..c.txSeq - base + |c.tx|];
    }
  }

  /** The segment carries every byte that was written and not acknowledged. */
  predicate Resends(w: World, seg: Segment)
  {
    seg.seqNo <= w.conn.sndUna && seg.seqNo + |seg.payload| == w.iss + 1 + |w.sent| && Carries(w.sent, w.iss + 1, seg)
  }

  /** When a connection that is being opened is established, and when any is closed. */
  lemma OpeningMeans(w: World, seg: Segment, now: nat, link: bool)
    requires Invariant(w) && |w.conn.rx| <= RX_BUF
    ensures var s := Receive(w.conn, seg, now, link);
      (seg.flags.rst ==> s.conn.state.Closed? && !s.conn.used && s.out == []) &&
      (w.conn.state.SynSent? && !seg.flags.rst ==>
         (s.conn.state.Established? <==> seg.flags.syn && seg.flags.ack && seg.ackNo == w.iss + 1) &&
         (s.conn.state.Established? && link ==> s.out == [AckOf(s.conn)]) && (!s.conn.state.Established? ==> s == Step(w.conn, [])))
  {
    hide Honest, Conforming, Receiving;
  }

  /** The connection just opened towards a peer that has heard nothing. */
  function Start(iss: nat, irs: nat, stream: Bytes, now: nat, link: bool): World
  {
    var s := Connect(iss, now, link);
    World(iss, s.conn, [], [], Transmitted(s), {}, Peer(irs, stream, false, []))
  }

  predicate Follows(w: World, e: Event, w': World)
  {
    Enabled(w, e) && (|w.conn.rx| <= RX_BUF ==> w' == Next(w, e))
  }

  predicate Trace(ws: seq<World>, es: seq<Event>)
  {
    |ws| == |es| + 1 && forall i :: 0 <= i < |es| ==> Follows(ws[i], es[i], ws[i + 1])
  }

  /** Every state of every run keeps the invariant. */
  lemma {:induction false} RunKeeps(ws: seq<World>, es: seq<Event>, irs: nat, stream: Bytes, now: nat, link: bool, k: nat)
    requires Trace(ws, es) && k < |ws|
    requires ws[0] == Start(ws[0].iss, irs, stream, now, link)
    requires ws[0].iss + 1 < U32 && irs + 2 + |stream| < U32
    ensures Invariant(ws[k]) && Acked(ws[k]) && ws[k].peer.stream == stream && ws[k].peer.irs == irs
    ensures ws[k].delivered + ws[k].conn.rx <= stream && ws[k].peer.app <= ws[k].sent
  {
    if k > 0 {
      RunKeeps(ws, es, irs, stream, now, link, k - 1);
      assert Follows(ws[k - 1], es[k - 1], ws[k]);
      NextKeeps(ws[k - 1], es[k - 1]);
      NextAcked(ws[k - 1], es[k - 1]);
    }
  }

  /** Any two transmissions that cover the same sequence number carry the same byte there. */
  lemma SameBytes(w: World, x: Segment, y: Segment, i: nat, j: nat)
    requires Invariant(w) && x in w.outbound && y in w.outbound
    requires i < |x.payload| && j < |y.payload| && x.seqNo + i == y.seqNo + j
    ensures x.payload[i] == y.payload[j]
  {
    var base := w.iss + 1;
    assert x.payload[i] == w.sent[x.seqNo - base..x.seqNo - base + |x.payload|][i] == w.sent[x.seqNo - base + i];
    assert y.payload[j] == w.sent[y.seqNo - base..y.seqNo - base + |y.payload|][j] == w.sent[y.seqNo - base + j];
  }

  /** Across a wrap of the sequence numbers a full acknowledgement is ignored. */
  lemma FullAckIsSeen(c: Conn, seg: Segment)
    requires c.state.Established? && c.txPending && 0 < |c.tx| <= TX_BUF
    requires c.sndUna == c.txSeq < U32 && c.sndNxt == (c.txSeq + |c.tx|) % U32
    requires seg.flags.ack && seg.ackNo == c.sndNxt
    ensures !TakeAck(c, seg).txPending <==> c.txSeq + |c.tx| < U32
  {
    if c.txSeq + |c.tx| >= U32 {
      assert (c.txSeq + |c.tx|) % U32 == c.txSeq + |c.tx| - U32;
    }
  }

  /**
   * A segment that ends the peer's stream: the connection then holds all of the stream if and only if the end was
   * taken before, or the segment is in order and its payload fits the buffer. The end is recorded in any case.
   */
  lemma FinIsWhole(w: World, seg: Segment, now: nat, link: bool)
    requires Invariant(w) && w.conn.state.Established? && seg in w.inbound && seg.flags.fin && !seg.flags.rst
    ensures var c := Receive(w.conn, seg, now, link).conn;
      c.peerClosed &&
      (w.delivered + c.rx == w.peer.stream <==>
       seg.seqNo + |seg.payload| <= w.conn.rcvNxt || (seg.seqNo == w.conn.rcvNxt && |seg.payload| <= RX_BUF - |w.conn.rx|))
  {
    hide Honest, Sending, Receive;
    ArrivesKeeps(w, seg, now, link);
    ReceivedBytes(w.conn, seg, now, link);
    assert Conforming(w.iss, w.peer, seg);
    WholeIfLong(w.delivered, Receive(w.conn, seg, now, link).conn.rx, w.peer.stream);
  }

  /** What a segment adds to the buffer of an established connection. */
  /** What an established connection has after a segment: bytes in order as far as they fit, and what was acknowledged. */
  lemma ArrivalMeans(c: Conn, seg: Segment, now: nat, link: bool)
    requires c.state.Established? && !seg.flags.rst && |c.rx| <= RX_BUF
    ensures var d := Receive(c, seg, now, link).conn;
      d.state.Established? && (d.peerClosed <==> c.peerClosed || seg.flags.fin) &&
      |d.rx| == |c.rx| + (if seg.seqNo != c.rcvNxt then 0 else if |c.rx| + |seg.payload| <= 4096 then |seg.payload| else 4096 - |c.rx|) &&
      d.sndUna == (if seg.flags.ack && seg.ackNo > c.sndUna then seg.ackNo else c.sndUna) &&
      (d.txPending <==> c.txPending && !(seg.flags.ack && seg.ackNo > c.sndUna && seg.ackNo >= c.txSeq + |c.tx|))
  {
    hide TakeAck, TakePayload, TakeFin;
    AckMoves(c, seg);
    var t := TakeAck(c, seg);
    var d := TakePayload(t, seg, now, link).conn;
    ReceivedBytes(c, seg, now, link);
    AckEffect(c, seg);
    PayloadEffect(t, seg, now, link);
    FinEffect(d, seg, now, link);
  }

  lemma AckEffect(c: Conn, seg: Segment)
    ensures var d := TakeAck(c, seg);
      d.peerClosed == c.peerClosed && d.sndUna == (if seg.flags.ack && seg.ackNo > c.sndUna then seg.ackNo else c.sndUna) &&
      (d.txPending <==> c.txPending && !(seg.flags.ack && seg.ackNo > c.sndUna && seg.ackNo >= c.txSeq + |c.tx|))
  {}

  lemma PayloadEffect(c: Conn, seg: Segment, now: nat, link: bool)
    requires |c.rx| <= RX_BUF
    ensures var d := TakePayload(c, seg, now, link).conn;
      d.state == c.state && d.peerClosed == c.peerClosed && d.sndUna == c.sndUna && d.txPending == c.txPending
  {}

  lemma FinEffect(c: Conn, seg: Segment, now: nat, link: bool)
    ensures var d := TakeFin(c, seg, now, link).conn;
      d.state == c.state && (d.peerClosed <==> c.peerClosed || seg.flags.fin) && d.sndUna == c.sndUna && d.txPending == c.txPending
  {}

  lemma ReceivedBytes(c: Conn, seg: Segment, now: nat, link: bool)
    requires c.state.Established? && !seg.flags.rst && |c.rx| <= RX_BUF
    ensures var d := Receive(c, seg, now, link).conn;
      |d.rx| == |c.rx| + (if seg.seqNo == c.rcvNxt then Room(c, seg) else 0) && (seg.flags.fin ==> d.peerClosed)
  {
    var t := TakeAck(c, seg);
    assert t.rx == c.rx && t.rcvNxt == c.rcvNxt;
  }

  lemma WholeIfLong(delivered: Bytes, rx: Bytes, stream: Bytes)
    requires delivered + rx <= stream
    ensures delivered + rx == stream <==> |delivered| + |rx| == |stream|
  {
  }

  /** The peer answers the SYN, and of its one byte and the FIN behind it only the FIN arrives. */
  function ByteLost(): seq<Event>
  {
    var answer, end := Segment(0, 1, Flags(true, true, false, false, false), []), Segment(2, 1, FINISH, []);
    [PeerTakes(Segment(0, 0, SYN, []), 0), PeerSends(answer), Arrives(answer, 0, true), PeerSends(end), Arrives(end, 0, true)]
  }

  /** In that run the end of the stream is reported to the application while the lost byte is still missing. */
  lemma EndsEarly() returns (ws: seq<World>)
    ensures Trace(ws, ByteLost()) && ws[0] == Start(0, 0, [7], 0, true)
    ensures Recv(ws[5].conn, 1).1 == End && ws[5].delivered + ws[5].conn.rx == [] && ws[5].peer.stream == [7]
  {
    var es := ByteLost();
    var w0 := Start(0, 0, [7], 0, true);
    assert Connect(0, 0, true).out[0] in w0.outbound;
    var w1 := Next(w0, es[0]);
    var w2 := Next(w1, es[1]);
    var w3 := Next(w2, es[2]);
    var w4 := Next(w3, es[3]);
    var w5 := Next(w4, es[4]);
    ws := [w0, w1, w2, w3, w4, w5];
    assert w1.peer.heardSyn && w3.conn.state.Established? && w3.conn.rcvNxt == 1;
  }

  /** A connection of the kernel together with what is said and heard on it. */
  class Session {
    const conn: Connection
    ghost var world: World

    ghost predicate Valid()
      reads this, conn, conn.rxBuf, conn.txBuf
    {
      conn.Valid() && conn.View() == world.conn && Invariant(world) && Acked(world)
    }

    /** `net_tcp_connect` towards a peer that will send `stream`. */
    constructor (iss: nat, ghost irs: nat, ghost stream: Bytes, now: nat, link: bool)
      requires iss + 1 < U32 && irs + 2 + |stream| < U32
      ensures Valid() && fresh(conn) && fresh(conn.rxBuf) && fresh(conn.txBuf)
      ensures world == Start(iss, irs, stream, now, link)
      ensures link ==> Segment(iss, 0, Flags(true, false, false, false, false), []) in world.outbound
    {
      conn := new Connection();
      new;
      var out := conn.Open(iss, now, link);
      world := Start(iss, irs, stream, now, link);
      assert link ==> Connect(iss, now, link).out[0] in world.outbound;
    }

    /** `net_tcp_send`: the bytes join what was written, in order, and go out, when the call says so and not otherwise. */
    method Write(data: Bytes, now: nat, link: bool) returns (r: SendResult, out: seq<Segment>)
      requires Valid() && Enabled(world, AppWrite(data, now, link))
      modifies this, conn, conn.txBuf
      ensures Valid() && world == Next(old(world), AppWrite(data, now, link))
      ensures world.sent == old(world.sent) + if r.Sent? then data else []
      ensures r.Sent? <==> old(conn.used && conn.state == Established && !conn.peerClosed && !conn.txPending) && 0 < |data| <= 1200 && link
      ensures r.Sent? ==> r.count == |data|
      ensures r.Sent? ==> out == [Segment(world.iss + 1 + |old(world.sent)|, old(conn.rcvNxt), Flags(false, true, false, false, true), data)]
      ensures !r.Sent? ==> out == [] && world == old(world)
    {
      hide Invariant, Acked;
      SendMeans(world, data, now, link);
      NextKeeps(world, AppWrite(data, now, link));
      NextAcked(world, AppWrite(data, now, link));
      out, r := conn.Write(data, now, link);
      world := Next(world, AppWrite(data, now, link));
      assert r.Sent? || world.outbound == old(world.outbound);
    }

    /** `net_tcp_recv`: what was read so far is always the beginning of what the peer sends. */
    method Read(len: nat) returns (r: RecvResult)
      requires Valid()
      modifies this, conn, conn.rxBuf
      ensures Valid() && world == Next(old(world), AppRead(len))
      ensures world.delivered == old(world.delivered) + if r.Data? then r.bytes else []
      ensures world.delivered <= world.peer.stream && (r.Data? ==> 0 < |r.bytes| <= len)
      ensures r.Data? <==> old(conn.used && conn.rxLen > 0) && len > 0
      ensures r.Data? ==> |r.bytes| == if len < old(conn.rxLen) then len else old(conn.rxLen)
      ensures r == End <==> old(conn.used && conn.rxLen == 0 && conn.peerClosed) && len > 0
    {
      ReadKeeps(world, len);
      hide Invariant, Acked;
      NextAcked(world, AppRead(len));
      r := conn.Read(len);
      world := Next(world, AppRead(len));
      ReadIsPrefix(world);
    }

    /** The TCP branch of `net_rx_frame`, for any segment that the peer sent at any time. */
    method Receive(seg: Segment, now: nat, link: bool) returns (out: seq<Segment>)
      requires Valid() && seg in world.inbound
      modifies this, conn, conn.rxBuf
      ensures Valid() && world == Next(old(world), Arrives(seg, now, link))
      ensures old(conn.state == Established) && !seg.flags.rst && link && (seg.payload != [] || seg.flags.fin) ==>
        out != [] && out[|out| - 1].flags.ack && out[|out| - 1].payload == [] &&
        out[|out| - 1].ackNo ==
          world.peer.irs + 1 + |world.delivered| + |world.conn.rx| + if EndCounted(old(world), seg, world.conn) then 1 else 0
      ensures old(conn.state == Established) && !seg.flags.rst ==>
        var n := old(conn.rxLen);
        (conn.peerClosed <==> old(conn.peerClosed) || seg.flags.fin) &&
        conn.rxLen == n + (if seg.seqNo != old(conn.rcvNxt) then 0 else if n + |seg.payload| <= 4096 then |seg.payload| else 4096 - n) &&
        conn.sndUna == (if seg.flags.ack && seg.ackNo > old(conn.sndUna) then seg.ackNo else old(conn.sndUna)) &&
        (conn.txPending <==> old(conn.txPending) && !(seg.flags.ack && seg.ackNo > old(conn.sndUna) &&
                                                      seg.ackNo >= old(conn.txSeq + conn.txLen)))
      ensures seg.flags.rst ==> conn.state == Closed
      ensures old(conn.state == SynSent) && !seg.flags.rst ==>
        (conn.state == Established <==> seg.flags.syn && seg.flags.ack && seg.ackNo == world.iss + 1)
    {
      hide Invariant, Acked, Tcp.Receive, EndCounted, AckOf, Transmitted;
      RxFits(world);
      OpeningMeans(world, seg, now, link);
      if world.conn.state.Established? && !seg.flags.rst { ArrivalMeans(world.conn, seg, now, link); }
      if world.conn.state.Established? && !seg.flags.rst && link && (seg.payload != [] || seg.flags.fin) {
        AnswerIsExact(world, seg, now, link);
      }
      NextKeeps(world, Arrives(seg, now, link));
      NextAcked(world, Arrives(seg, now, link));
      out := conn.OnSegment(seg, now, link);
      world := Next(world, Arrives(seg, now, link));
    }

    /** The retransmission part of `net_tick`. */
    method Tick(now: nat, link: bool) returns (out: seq<Segment>)
      requires Valid()
      modifies this, conn
      ensures Valid() && world == Next(old(world), TimerTick(now, link))
      ensures var c := old(world.conn);
        (!Due(c, now) ==> out == [] && world == old(world)) &&
        (Due(c, now) && c.retries >= 8 ==> out == [] && conn.state == Closed) &&
        (Due(c, now) && c.retries < 8 && link && c.state.Established? && c.txPending ==> |out| == 1 && Resends(old(world), out[0])) &&
        (Due(c, now) && c.retries < 8 && link && c.state.SynSent? ==>
           out == [Segment(world.iss, 0, Flags(true, false, false, false, false), [])])
    {
      hide Invariant, Acked;
      TickMeans(world, now, link);
      NextKeeps(world, TimerTick(now, link));
      NextAcked(world, TimerTick(now, link));
      out := conn.OnTick(now, link);
      world := Next(world, TimerTick(now, link));
      assert !Due(old(world.conn), now) ==> world.outbound == old(world.outbound);
    }

    method Do(e: Event)
      requires Valid() && Enabled(world, e)
      modifies this, conn, conn.rxBuf, conn.txBuf
      ensures Valid() && world == Next(old(world), e)
    {
      hide Invariant;
      match e
      case AppWrite(data, now, link) =>
        var r, out := Write(data, now, link);
      case AppRead(len) =>
        var r := Read(len);
      case TimerTick(now, link) =>
        var out := Tick(now, link);
      case Arrives(seg, now, link) =>
        var out := Receive(seg, now, link);
      case PeerSends(seg) =>
        NextKeeps(world, e);
        NextAcked(world, e);
        world := Next(world, e);
      case PeerTakes(seg, n) =>
        NextKeeps(world, e);
        NextAcked(world, e);
        world := Next(world, e);
    }

    /** Every run of the connection itself: each byte read was sent in that place, and so was each byte the peer took. */
    method Run(es: seq<Event>, ghost ws: seq<World>)
      requires Valid() && Trace(ws, es) && ws[0] == world
      modifies this, conn, conn.rxBuf, conn.txBuf
      ensures Valid() && world == ws[|es|]
      ensures world.delivered + conn.View().rx <= world.peer.stream && world.peer.app <= world.sent
    {
      for i := 0 to |es|
        invariant Valid() && world == ws[i]
      {
        hide Invariant;
        assert Follows(ws[i], es[i], ws[i + 1]);
        Do(es[i]);
      }
    }
  }

  lemma RxFits(w: World)
    requires Invariant(w)
    ensures |w.conn.rx| <= RX_BUF
  {}

  lemma ReadIsPrefix(w: World)
    requires Invariant(w)
    ensures w.delivered <= w.peer.stream
  {}
}
