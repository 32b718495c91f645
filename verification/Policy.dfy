/**
 * The access-policy protocol between the kernel and its policy daemon. The daemon may answer any
 * query it was sent, at any time, in any order, repeatedly or never; its answers are its own.
 */
module Policy {
  import opened Common
  import opened LruTree
  import opened PolicyCache
  import MsgQueue

  const ALLOW: int := 0
  const DENY: int := 1
  const DEFAULT: int := 2

  const READ: nat := 1
  const EXECUTE: nat := 3

  const QUERY: nat := 1
  const RESPONSE: nat := 2
  const QUERY_SIZE: nat := 4128
  const RESPONSE_SIZE: nat := 268

  datatype Query = Query(id: nat, request: Request, path: string)

  datatype Response = Response(id: nat, result: int)

  datatype Body = Ask(query: Query) | Tell(response: Response)

  type Mail = MsgQueue.Message<Body>

  /** An answer of the daemon; `fits` says whether it could be queued. */
  datatype Reply = Reply(query: Query, result: int, fits: bool)

  /** The daemon answers before the first poll. */
  predicate Prompt(script: seq<seq<Reply>>)
  {
    script != [] && script[0] != [] && script[0][0].fits
  }

  /** An answer that the kernel took at the given time. */
  datatype Accepted = Accepted(query: Query, result: int, time: nat)

  /** `policy_fallback_result`. */
  function Fallback(op: nat): int
  {
    if op == READ || op == EXECUTE then DEFAULT else DENY
  }

  /** What the kernel decides without the daemon: nothing for reading and executing, refusal for everything else. */
  ghost predicate Degrades(op: nat, r: int)
  {
    if op == 1 || op == 3 then r == 2 else r == 1
  }

  lemma FallbackDegrades(op: nat)
    ensures forall r: int :: Degrades(op, r) <==> r == Fallback(op)
  {}

  /** Identifiers tell the queries sent so far apart. */
  ghost predicate Identified(sent: set<Query>, nextId: nat)
  {
    (forall q :: q in sent ==> q.id < nextId) && forall q, p :: q in sent && p in sent && q.id == p.id ==> q == p
  }

  ghost predicate AnswerTo(answers: set<(Query, int)>, q: Query, r: Response)
  {
    (q, r.result) in answers && q.id == r.id
  }

  ghost predicate Honest(m: Mail, answers: set<(Query, int)>)
  {
    m.kind == RESPONSE ==> m.size == RESPONSE_SIZE && m.body.Tell? && exists q :: AnswerTo(answers, q, m.body.response)
  }

  ghost predicate AllHonest(mail: seq<Mail>, answers: set<(Query, int)>)
  {
    forall i :: 0 <= i < |mail| ==> Honest(mail[i], answers)
  }

  lemma HonestGrows(m: Mail, answers: set<(Query, int)>, more: set<(Query, int)>)
    requires Honest(m, answers) && answers <= more
    ensures Honest(m, more)
  {
    if m.kind == RESPONSE {
      var q :| AnswerTo(answers, q, m.body.response);
      assert AnswerTo(more, q, m.body.response);
    }
  }

  /** The oldest response that waits in the queue. */
  ghost function Oldest(mail: seq<Mail>): Option<Body>
  {
    if mail == [] then None else if mail[0].kind == RESPONSE then Some(mail[0].body) else Oldest(mail[1..])
  }

  lemma {:induction false} OldestAppend(mail: seq<Mail>, m: Mail)
    ensures Oldest(mail).Some? ==> Oldest(mail + [m]) == Oldest(mail)
    ensures Oldest(mail).None? && m.kind == RESPONSE ==> Oldest(mail + [m]) == Some(m.body)
  {
    if mail == [] {
      assert mail + [m] == [m];
    } else if mail[0].kind != RESPONSE {
      OldestAppend(mail[1..], m);
      assert (mail + [m])[1..] == mail[1..] + [m];
    }
  }

  lemma {:induction false} OldestAt(mail: seq<Mail>, at: nat)
    requires at <= |mail| && forall j :: 0 <= j < at ==> mail[j].kind != RESPONSE
    ensures at == |mail| ==> Oldest(mail).None?
    ensures at < |mail| && mail[at].kind == RESPONSE ==> Oldest(mail) == Some(mail[at].body)
  {
    if at > 0 { OldestAt(mail[1..], at - 1); }
  }

  lemma {:induction false} OldestHonest(mail: seq<Mail>, answers: set<(Query, int)>)
    requires AllHonest(mail, answers) && Oldest(mail).Some?
    ensures Oldest(mail).value.Tell? && exists q :: AnswerTo(answers, q, Oldest(mail).value.response)
  {
    assert Honest(mail[0], answers);
    if mail[0].kind != RESPONSE { OldestHonest(mail[1..], answers); }
  }

  /** The decision comes from an accepted answer to the same request. */
  ghost predicate From(d: Decision, a: Accepted, ttl: nat)
  {
    a.query.request == d.request && a.result == d.result && d.expiry == a.time + ttl
  }

  ghost predicate Backed(d: Decision, accepted: set<Accepted>, ttl: nat)
  {
    exists a :: a in accepted && From(d, a, ttl)
  }

  ghost predicate AllBacked(s: seq<Cached>, accepted: set<Accepted>, ttl: nat)
  {
    forall i :: 0 <= i < |s| ==> Backed(s[i].entry, accepted, ttl)
  }

  lemma BackedUsed(s: seq<Cached>, at: nat, t: seq<Cached>, accepted: set<Accepted>, ttl: nat)
    requires AllBacked(s, accepted, ttl) && at < |s| && Used(s, at, s[at].entry, t)
    ensures AllBacked(t, accepted, ttl) && Backed(s[at].entry, accepted, ttl)
  {
  }

  lemma BackedInsert(s: seq<Cached>, max: nat, num: nat, d: Decision, a: Accepted, accepted: set<Accepted>, ttl: nat)
    requires AllBacked(s, accepted, ttl) && From(d, a, ttl)
    ensures AllBacked([Item(num, d)] + Recent(s, max), accepted + {a}, ttl) && AllBacked(Recent(s, max), accepted + {a}, ttl)
  {
    forall i | 0 <= i < |Recent(s, max)| ensures Backed(Recent(s, max)[i].entry, accepted + {a}, ttl) {
      assert Backed(s[i].entry, accepted, ttl);
      var b :| b in accepted && From(s[i].entry, b, ttl);
      assert b in accepted + {a};
    }
    assert Backed(d, accepted + {a}, ttl);
  }

  /** What is left of the cached decisions once those about an inode are gone. */
  lemma {:induction false} OthersElems(s: seq<Cached>, inode: nat, c: Cached)
    ensures c in Others(s, inode) <==> c in s && c.entry.request.inode != inode
  {
    if s != [] {
      OthersElems(s[1..], inode, c);
      assert s == [s[0]] + s[1..];
    }
  }

  lemma BackedOthers(s: seq<Cached>, inode: nat, accepted: set<Accepted>, ttl: nat)
    requires AllBacked(s, accepted, ttl)
    ensures AllBacked(Others(s, inode), accepted, ttl)
    ensures forall request: Request :: Mentions(Others(s, inode), request) <==> Mentions(s, request) && request.inode != inode
  {
    var t := Others(s, inode);
    forall i | 0 <= i < |t|
      ensures Backed(t[i].entry, accepted, ttl) && t[i] in s && t[i].entry.request.inode != inode
    {
      OthersElems(s, inode, t[i]);
      assert t[i] in t;
    }
    forall i | 0 <= i < |s| && s[i].entry.request.inode != inode
      ensures s[i] in t
    {
      OthersElems(s, inode, s[i]);
    }
  }

  ghost predicate Mentions(s: seq<Cached>, request: Request)
  {
    exists i :: 0 <= i < |s| && s[i].entry.request == request
  }

  class Kernel {
    const cache: Cache
    const toDaemon: MsgQueue.Queue<Body>
    const toKernel: MsgQueue.Queue<Body>
    var connected: bool
    var available: bool
    var nextId: nat
    ghost var sent: set<Query>
    ghost var answers: set<(Query, int)>
    ghost var accepted: set<Accepted>

    constructor (maxEntries: nat, ttl: nat)
      requires maxEntries >= 1
      ensures Valid() && nextId == 1 && sent == {} && answers == {} && accepted == {}
    {
      cache := new Cache(maxEntries, ttl);
      toDaemon := new MsgQueue.Queue();
      toKernel := new MsgQueue.Queue();
      connected, available, nextId := false, false, 1;
      sent, answers, accepted := {}, {}, {};
    }

    /** The channel: queues in order, identifiers unique, every waiting response an answer of the daemon. */
    ghost predicate Channel()
      reads this, toDaemon, toKernel
    {
      toDaemon != toKernel && toDaemon.Valid() && toKernel.Valid() && Identified(sent, nextId) &&
      (forall a :: a in answers ==> a.0 in sent) && AllHonest(toKernel.messages, answers)
    }

    /** The cache: every decision comes from an accepted answer of the daemon. */
    ghost predicate Cached()
      reads this, cache.store, cache.store.index, cache.store.index.root, cache.store.index.root.repr
    {
      cache.Valid() && cache.store.maxEntries >= 1 && AllBacked(cache.Contents(), accepted, cache.ttl) &&
      (forall a :: a in accepted ==> (a.query, a.result) in answers)
    }

    ghost predicate Valid()
      reads this, toDaemon, toKernel
      reads cache.store, cache.store.index, cache.store.index.root, cache.store.index.root.repr
    {
      Channel() && Cached()
    }

    /** No response waits and there is room for one. */
    ghost predicate Clear()
      reads toKernel
    {
      Oldest(toKernel.messages).None? && |toKernel.messages| < MsgQueue.MAX_MESSAGES
    }

    /** The queue is full and holds no response. */
    ghost predicate Clogged()
      reads toKernel
    {
      Oldest(toKernel.messages).None? && |toKernel.messages| == MsgQueue.MAX_MESSAGES
    }

    /** The daemon answers a query it was sent. */
    method DaemonReplies(r: Reply)
      requires Channel() && r.query in sent
      modifies `answers, toKernel
      ensures Channel() && answers == old(answers) + {(r.query, r.result)} && (old(Cached()) ==> Cached())
      ensures old(|toKernel.messages|) == MsgQueue.MAX_MESSAGES ==> toKernel.messages == old(toKernel.messages)
      ensures old(Oldest(toKernel.messages)).Some? ==> Oldest(toKernel.messages) == old(Oldest(toKernel.messages))
      ensures old(Clear()) && r.fits ==> Oldest(toKernel.messages) == Some(Tell(Response(r.query.id, r.result)))
    {
      var m := MsgQueue.Message(RESPONSE, RESPONSE_SIZE, Tell(Response(r.query.id, r.result)));
      answers := answers + {(r.query, r.result)};
      assert AnswerTo(answers, r.query, m.body.response);
      forall i | 0 <= i < |toKernel.messages| ensures Honest(toKernel.messages[i], answers) {
        HonestGrows(toKernel.messages[i], old(answers), answers);
      }
      OldestAppend(toKernel.messages, m);
      var sentIt := toKernel.Send(m, r.fits);
    }

    /** The daemon takes the oldest query from its queue, if there is one. */
    method DaemonTakes() returns (q: MsgQueue.RecvResult<Body>, ghost at: nat)
      requires Channel()
      modifies toDaemon
      ensures Channel() && (old(Cached()) ==> Cached()) && (q == MsgQueue.Nothing <==> at == |old(toDaemon.messages)|)
      ensures forall j :: 0 <= j < at && j < |old(toDaemon.messages)| ==> old(toDaemon.messages)[j].kind != 1
      ensures q.Got? ==> at < |old(toDaemon.messages)| && q.body == old(toDaemon.messages)[at].body &&
                         toDaemon.messages == old(toDaemon.messages)[..at] + old(toDaemon.messages)[at + 1..]
      ensures !q.Got? ==> toDaemon.messages == old(toDaemon.messages)
    {
      q, at := toDaemon.Recv(MsgQueue.MAX_MESSAGE_SIZE, QUERY);
    }

    /** The daemon comes or goes. */
    method SetConnected(on: bool)
      requires Channel()
      modifies `connected
      ensures Channel() && connected == on && (old(Cached()) ==> Cached())
    {
      connected := on;
    }

    /** `policy_daemon_available`. */
    method Refresh() returns (up: bool)
      requires Valid()
      modifies `available
      ensures Valid() && available == connected == up
    {
      available := connected;
      up := available;
    }

    /** `axiomd_send_query`. */
    method SendQuery(q: Query, memory: bool) returns (ok: bool)
      requires Channel() && q.id == nextId - 1 && (forall p :: p in sent ==> p.id < q.id)
      modifies `sent, toDaemon
      ensures Channel() && sent == if ok then old(sent) + {q} else old(sent)
      ensures ok <==> connected && memory && |old(toDaemon.messages)| < MsgQueue.MAX_MESSAGES
    {
      if !connected {
        return false;
      }
      var r := toDaemon.Send(MsgQueue.Message(QUERY, QUERY_SIZE, Ask(q)), memory);
      ok := r == MsgQueue.Ok;
      if ok {
        sent := sent + {q};
      }
    }

    method DaemonRepliesAll(rs: seq<Reply>)
      requires Channel() && forall k :: 0 <= k < |rs| ==> rs[k].query in sent
      modifies `answers, toKernel
      ensures Channel() && old(answers) <= answers
      ensures old(|toKernel.messages|) == MsgQueue.MAX_MESSAGES ==> toKernel.messages == old(toKernel.messages)
      ensures old(Oldest(toKernel.messages)).Some? ==> Oldest(toKernel.messages) == old(Oldest(toKernel.messages))
      ensures old(Clear()) && rs != [] && rs[0].fits ==> Oldest(toKernel.messages) == Some(Tell(Response(rs[0].query.id, rs[0].result)))
    {
      for k := 0 to |rs|
        invariant Channel() && old(answers) <= answers
        invariant old(|toKernel.messages|) == MsgQueue.MAX_MESSAGES ==> toKernel.messages == old(toKernel.messages)
        invariant old(Oldest(toKernel.messages)).Some? ==> Oldest(toKernel.messages) == old(Oldest(toKernel.messages))
        invariant k == 0 && old(Clear()) ==> Clear()
        invariant k > 0 && old(Clear()) && rs[0].fits ==>
          Oldest(toKernel.messages) == Some(Tell(Response(rs[0].query.id, rs[0].result)))
      {
        hide Channel, Oldest;
        DaemonReplies(rs[k]);
      }
    }

    /** One poll of the response queue. */
    method Poll() returns (r: Option<Response>)
      requires Channel()
      modifies toKernel
      ensures Channel()
      ensures r.Some? ==> old(Oldest(toKernel.messages)) == Some(Tell(r.value)) && exists q :: AnswerTo(answers, q, r.value)
      ensures r.None? <==> old(Oldest(toKernel.messages)).None?
      ensures r.None? ==> toKernel.messages == old(toKernel.messages)
    {
      ghost var mail := toKernel.messages;
      var m, at := toKernel.Recv(RESPONSE_SIZE, RESPONSE);
      OldestAt(mail, at);
      assert at < |mail| ==> Honest(mail[at], answers);
      r := if m.Got? then Some(m.body.response) else None;
    }

    /**
     * `axiomd_recv_response`: `script` says what the daemon does before each poll until time is up.
     * A response that is already waiting is taken first, whoever it answers.
     */
    method Await(script: seq<seq<Reply>>) returns (r: Option<Response>)
      requires Channel() && forall i, k :: 0 <= i < |script| && 0 <= k < |script[i]| ==> script[i][k].query in sent
      modifies `answers, toKernel
      ensures Channel() && old(answers) <= answers
      ensures r.Some? ==> exists q :: AnswerTo(answers, q, r.value)
      ensures r.Some? && old(Oldest(toKernel.messages)).Some? ==> old(Oldest(toKernel.messages)) == Some(Tell(r.value))
      ensures connected && old(Clear()) && Prompt(script) ==> r == Some(Response(script[0][0].query.id, script[0][0].result))
      ensures !connected || old(Clogged()) ==> r.None?
    {
      if !connected {
        return None;
      }
      for i := 0 to |script|
        invariant Channel() && old(answers) <= answers
        invariant old(Oldest(toKernel.messages)).Some? ==> Oldest(toKernel.messages) == old(Oldest(toKernel.messages))
        invariant old(Clear()) ==> if i == 0 then Clear() else !Prompt(script)
        invariant old(Clogged()) ==> toKernel.messages == old(toKernel.messages)
      {
        hide Channel, Oldest, AnswerTo;
        DaemonRepliesAll(script[i]);
        r := Poll();
        if r.Some? {
          return;
        }
      }
      r := None;
    }

    /** The daemon is connected and both queues have room, with no response left over. */
    ghost predicate Open()
      reads `connected, toDaemon, toKernel
    {
      connected && |toDaemon.messages| < MsgQueue.MAX_MESSAGES && Clear()
    }

    /** `policy_daemon_query`: a result is the daemon's answer to this very query. */
    method AskDaemon(q: Query, memory: bool, script: seq<seq<Reply>>) returns (r: Option<int>)
      requires Channel() && q.id == nextId - 1 && forall p :: p in sent ==> p.id < q.id
      requires forall i, k :: 0 <= i < |script| && 0 <= k < |script[i]| ==> script[i][k].query in sent + {q}
      modifies `available, `sent, `answers, toDaemon, toKernel
      ensures Channel() && old(answers) <= answers && available == connected
      ensures r.Some? ==> (q, r.value) in answers
      ensures old(Oldest(toKernel.messages)).Some? ==> r.None?
      ensures Prompt(script) && script[0][0].query == q ==> (r == Some(script[0][0].result) <==> old(Open()) && memory)
      ensures !(old(Open()) && memory) ==> r.None?
    {
      available := connected;
      if !available {
        return None;
      }
      if Oldest(toKernel.messages).Some? { OldestHonest(toKernel.messages, answers); }
      var ok := SendQuery(q, memory);
      if !ok {
        return None;
      }
      var answer := Await(script);
      if answer.None? {
        return None;
      }
      if answer.value.id != q.id {
        return None;
      }
      ghost var p :| AnswerTo(answers, p, answer.value);
      assert p == q;
      r := Some(answer.value.result);
    }

    /** `r` is the daemon's answer to this request that was accepted as `a`. */
    ghost predicate Answered(request: Request, r: int, a: Accepted)
      reads this
    {
      a in accepted && a.query.request == request && a.result == r && (a.query, a.result) in answers
    }

    /** The answer is a remembered one that has not expired at `now`, or it was taken at `later`. */
    ghost predicate Timely(a: Accepted, before: set<Accepted>, now: nat, later: nat)
    {
      if a in before then now < a.time + cache.ttl else a.time == later
    }

    lemma AcceptedWereSent()
      requires Valid()
      ensures forall a :: a in accepted ==> a.query in sent
    {}

    /** Takes an answer into the cache. */
    method Accept(q: Query, result: int, now: nat, memory: bool)
      requires Valid() && (q, result) in answers
      modifies `accepted, cache.store, cache.store.index, cache.store.index.root, cache.store.index.root.repr
      ensures Valid() && fresh(cache.store.index.root.repr - old(cache.store.index.root.repr))
      ensures accepted == old(accepted) + {Accepted(q, result, now)}
      ensures memory ==> cache.Contents() != [] && cache.Contents()[0].entry == Decision(q.request, result, now + cache.ttl)
    {
      hide Identified, AllHonest, Cache.Valid, AllBacked, Recent;
      ghost var a := Accepted(q, result, now);
      ghost var d := Decision(q.request, result, now + cache.ttl);
      BackedInsert(cache.Contents(), cache.store.maxEntries - 1, Hash(q.request), d, a, accepted, cache.ttl);
      ghost var kept := Recent(cache.Contents(), cache.store.maxEntries - 1);
      cache.Insert(q.request, result, now, memory);
      assert !memory ==> cache.Contents() == kept;
      accepted := accepted + {a};
    }

    /** Asking the daemon leaves the cache alone. */
    method AskSafely(q: Query, memory: bool, script: seq<seq<Reply>>) returns (r: Option<int>)
      requires Valid() && q.id == nextId - 1 && forall p :: p in sent ==> p.id < q.id
      requires forall i, k :: 0 <= i < |script| && 0 <= k < |script[i]| ==> script[i][k].query in sent + {q}
      modifies `available, `sent, `answers, toDaemon, toKernel
      ensures Valid() && old(answers) <= answers
      ensures r.Some? ==> (q, r.value) in answers
      ensures old(Oldest(toKernel.messages)).Some? ==> r.None?
      ensures Prompt(script) && script[0][0].query == q ==> (r == Some(script[0][0].result) <==> old(Open()) && memory)
      ensures !(old(Open()) && memory) ==> r.None?
    {
      hide Channel, Oldest, Cache.Valid, AllBacked;
      r := AskDaemon(q, memory, script);
    }

    method Number(request: Request, path: string) returns (q: Query)
      requires Valid() && nextId + 1 < U32
      modifies `nextId
      ensures Valid() && q == Query(old(nextId), request, path) && nextId == old(nextId) + 1
      ensures forall p :: p in sent ==> p.id < q.id
    {
      hide AllHonest, Cache.Valid, AllBacked;
      q := Query(nextId, request, path);
      nextId := (nextId + 1) % U32;
    }

    /** Some cached decision is about the request. */
    ghost predicate Known(request: Request)
      requires cache.Valid()
      reads cache.store, cache.store.index, cache.store.index.root, cache.store.index.root.repr
    {
      Mentions(cache.Contents(), request)
    }

    /** The cache part of `policy_check_access`. */
    method Consult(request: Request, now: nat) returns (r: Option<int>)
      requires Valid()
      modifies cache, cache.store`entries, cache.store`lru
      ensures Valid()
      ensures r.Some? ==> exists a :: Answered(request, r.value, a) && now < a.time + cache.ttl
      ensures r.Some? ==> old(Known(request))
      ensures forall i: nat :: Sole(old(cache.Contents()), i, request) ==>
        var d := old(cache.Contents())[i].entry; r == if now < d.expiry then Some(d.result) else None
    {
      hide Channel, Cache.Valid, Cache.Contents, AllBacked, Used;
      ghost var before := cache.Contents();
      ghost var at;
      r, at := cache.Lookup(request, now);
      if r.Some? {
        BackedUsed(before, at, cache.Contents(), accepted, cache.ttl);
        ghost var d := before[at].entry;
        assert Backed(d, accepted, cache.ttl);
        ghost var a :| a in accepted && From(d, a, cache.ttl);
        assert Answered(request, r.value, a) && now < a.time + cache.ttl;
      }
    }

    /**
     * `policy_check_access`. The result is the fixed fallback, or what the daemon answered to a query
     * for exactly this request, taken now or less than the cache's lifetime ago.
     */
    method CheckAccess(request: Request, path: string, now: nat, memory: bool, script: seq<seq<Reply>>, later: nat,
                       cacheMemory: bool) returns (r: int)
      requires Valid() && nextId + 1 < U32 && now <= later
      requires forall i, k :: 0 <= i < |script| && 0 <= k < |script[i]| ==>
        script[i][k].query in sent + {Query(nextId, request, path)}
      modifies this, toDaemon, toKernel, cache, cache.store, cache.store.index, cache.store.index.root, cache.store.index.root.repr
      ensures Valid() && old(answers) <= answers && old(accepted) <= accepted && (old(!available) ==> !available)
      ensures Degrades(request.op, r) || exists a :: Answered(request, r, a) && Timely(a, old(accepted), now, later)
      ensures request.op != 1 && request.op != 3 && r != 1 ==>
        exists a :: Answered(request, r, a) && Timely(a, old(accepted), now, later)
      ensures (request.op == 1 || request.op == 3) && r == 1 ==>
        exists a :: Answered(request, 1, a) && Timely(a, old(accepted), now, later)
      ensures old(!available && !Known(request)) ==> Degrades(request.op, r) && sent == old(sent)
      ensures forall i: nat :: Sole(old(cache.Contents()), i, request) ==>
        var d := old(cache.Contents())[i].entry; now < d.expiry && d.result >= 0 ==> r == d.result && sent == old(sent)
      ensures old(!Known(request) && available) && Prompt(script) && script[0][0].query == Query(old(nextId), request, path) ==>
        if old(Open()) && memory then r == script[0][0].result else Degrades(request.op, r)
      ensures old(!Known(request) && available) && !(old(Open()) && memory) ==> Degrades(request.op, r)
    {
      hide Valid;
      FallbackDegrades(request.op);
      var cached := Consult(request, now);
      if cached.Some? && cached.value >= 0 {
        return cached.value;
      }
      if !available {
        return Fallback(request.op);
      }
      var q := Number(request, path);
      AcceptedWereSent();
      var answer := AskSafely(q, memory, script);
      if answer.None? {
        return Fallback(request.op);
      }
      Accept(q, answer.value, later, cacheMemory);
      r := answer.value;
      assert Answered(request, r, Accepted(q, r, later));
      assert Timely(Accepted(q, r, later), old(accepted), now, later);
    }

    /** How the file system asks: it goes on without a decision when no daemon is connected. */
    method Decide(request: Request, path: string, now: nat, memory: bool, script: seq<seq<Reply>>, later: nat, cacheMemory: bool)
      returns (r: Option<int>)
      requires Valid() && nextId + 1 < U32 && now <= later
      requires forall i, k :: 0 <= i < |script| && 0 <= k < |script[i]| ==>
        script[i][k].query in sent + {Query(nextId, request, path)}
      modifies this, toDaemon, toKernel, cache, cache.store, cache.store.index, cache.store.index.root, cache.store.index.root.repr
      ensures Valid() && (r.None? <==> !old(connected))
      ensures r.Some? ==>
        Degrades(request.op, r.value) || exists a :: Answered(request, r.value, a) && Timely(a, old(accepted), now, later)
      ensures r == Some(1) && (request.op == 1 || request.op == 3) ==>
        exists a :: Answered(request, 1, a) && Timely(a, old(accepted), now, later)
      ensures old(!Known(request) && connected) && Prompt(script) && script[0][0].query == Query(old(nextId), request, path) ==>
        if old(Open()) && memory then r == Some(script[0][0].result) else Degrades(request.op, r.value)
      ensures old(!Known(request) && connected) && !(old(Open()) && memory) ==> Degrades(request.op, r.value)
    {
      hide Valid;
      var up := Refresh();
      if !up {
        return None;
      }
      var d := CheckAccess(request, path, now, memory, script, later, cacheMemory);
      r := Some(d);
    }

    /** `policy_cache_invalidate`. */
    method Invalidate(inode: nat)
      requires Valid()
      modifies cache.store`entries, cache.store`lru, cache.store`count, cache.store.index, cache.store.index.root, cache.store.index.root.repr
      ensures Valid() && cache.store.index.root.repr <= old(cache.store.index.root.repr)
      ensures forall request: Request :: Known(request) <==> old(Known(request)) && request.inode != inode
    {
      hide Channel, Cache.Valid, Cache.Contents, AllBacked, Others;
      ghost var s := cache.Contents();
      cache.Invalidate(inode);
      BackedOthers(s, inode, accepted, cache.ttl);
    }

    /** `policy_cache_flush`. */
    method Flush()
      requires Valid()
      modifies cache.store`entries, cache.store`lru, cache.store`count, cache.store.index, cache.store.index.root, cache.store.index.root.repr
      ensures Valid() && cache.store.index.root.repr <= old(cache.store.index.root.repr)
      ensures forall request: Request :: !Known(request)
    {
      hide Channel, Cache.Valid, Cache.Contents;
      cache.Flush();
    }
  }
}
