/** The round-robin scheduler: one queue per priority, a bitmap of the non-empty ones, and the sleepers. */
module Sched {
  import opened Lists

  const MAX_PRIO: nat := 140
  const MIN_TIMESLICE: int := 1
  const DEF_TIMESLICE: int := 10
  const MAX_TIMESLICE: int := 100
  const TICK_MS: nat := 4

  datatype State = Created | Ready | Running | Blocked | Sleeping | Zombie | Dead

  /** The scheduler's part of `struct process`; `onRun` and `onSleep` say whether a list node is linked. */
  class Task {
    var priority: int
    var nice: int
    var state: State
    var exiting: bool
    var timeSlice: int
    var wakeup: nat
    var onRun: bool
    var onSleep: bool

    constructor ()
      ensures priority == 120 && state == Created && !exiting && !onRun && !onSleep
    {
      priority, nice, state, exiting, timeSlice, wakeup, onRun, onSleep := 120, 0, Created, false, 0, 0, false, false;
    }

    predicate Schedulable()
      reads this
    {
      state != Zombie && state != Dead && !exiting
    }

    /** A sleeper that was looked at is ready if its time has come; any other sleeps on. */
    twostate predicate Settled(clock: nat, seen: bool)
      reads this
    {
      if seen && old(wakeup) <= clock then !onSleep && (exiting || (onRun && state == Ready))
      else onSleep && wakeup == old(wakeup)
    }
  }

  function Clamp(prio: int): (r: nat)
    ensures r < 140 && (0 <= prio < 140 ==> r == prio) && (prio < 0 ==> r == 0) && (prio >= 140 ==> r == 139)
  {
    if prio < 0 then 0 else if prio >= MAX_PRIO then MAX_PRIO - 1 else prio
  }

  /** `rr_time_slice`. */
  function TimeSlice(nice: int): (slice: int)
    ensures MIN_TIMESLICE <= slice <= MAX_TIMESLICE
  {
    var slice := if nice < 0 then DEF_TIMESLICE + (-nice * 2) else DEF_TIMESLICE - nice / 2;
    if slice < MIN_TIMESLICE then MIN_TIMESLICE else if slice > MAX_TIMESLICE then MAX_TIMESLICE else slice
  }

  /** A nicer task never gets a longer slice; an ordinary one gets ten ticks. */
  lemma SliceFalls(a: int, b: int)
    requires a <= b
    ensures TimeSlice(a) >= TimeSlice(b) && TimeSlice(0) == 10 && TimeSlice(-20) == 50 && TimeSlice(19) == 1 && TimeSlice(-45) == 100
  {}

  /** The slice after a tick: one less, or a new one when it is used up and nobody waits. */
  function Charged(slice: int, waiting: nat, nice: int): int
  {
    if slice <= 1 && waiting == 0 then TimeSlice(nice) else slice - 1
  }

  ghost function Total(queues: seq<seq<Task>>): nat
  {
    if queues == [] then 0 else |queues[0]| + Total(queues[1..])
  }

  lemma {:induction false} TotalUpdate(queues: seq<seq<Task>>, b: nat, q: seq<Task>)
    requires b < |queues|
    ensures Total(queues[b := q]) == Total(queues) - |queues[b]| + |q|
  {
    if b == 0 {
      assert queues[b := q][1..] == queues[1..];
    } else {
      TotalUpdate(queues[1..], b - 1, q);
      assert queues[b := q][1..] == queues[1..][b - 1 := q];
    }
  }

  lemma {:induction false} TotalNone(queues: seq<seq<Task>>)
    requires forall b :: 0 <= b < |queues| ==> queues[b] == []
    ensures Total(queues) == 0
  {
    if queues != [] { TotalNone(queues[1..]); }
  }

  /** The first task of the best non-empty queue. */
  ghost predicate Best(queues: seq<seq<Task>>, b: nat)
  {
    b < |queues| && queues[b] != [] && forall a :: 0 <= a < b ==> queues[a] == []
  }

  /** The queues only grew, at their ends, by tasks of the set. */
  ghost predicate Joined(queues: seq<seq<Task>>, before: seq<seq<Task>>, more: set<Task>)
  {
    |queues| == |before| && forall b :: 0 <= b < |queues| ==> Extends(queues[b], before[b], more)
  }

  ghost predicate Extends(q: seq<Task>, before: seq<Task>, more: set<Task>)
  {
    before <= q && forall i :: |before| <= i < |q| ==> q[i] in more
  }

  lemma JoinedStart(queues: seq<seq<Task>>, more: set<Task>)
    ensures Joined(queues, queues, more)
  {}

  lemma JoinedStep(queues: seq<seq<Task>>, mid: seq<seq<Task>>, before: seq<seq<Task>>, t: Task, due: set<Task>)
    requires Joined(mid, before, due) && (Joined(queues, mid, {}) || (t in due && Joined(queues, mid, {t})))
    ensures Joined(queues, before, due)
  {
    forall b | 0 <= b < |queues|
      ensures Extends(queues[b], before[b], due)
    {
      assert Extends(mid[b], before[b], due);
      assert Extends(queues[b], mid[b], {}) || (t in due && Extends(queues[b], mid[b], {t}));
    }
  }

  /** The task is at position `k` of the queue `prio`, and the better queues are empty. */
  ghost predicate Front(queues: seq<seq<Task>>, t: Task, prio: int, k: nat)
  {
    0 <= prio < |queues| && k < |queues[prio]| && queues[prio][k] == t && forall a :: 0 <= a < prio ==> queues[a] == []
  }

  ghost predicate FrontWithin(queues: seq<seq<Task>>, t: Task, prio: int, k: nat)
  {
    exists m: nat :: m <= k && Front(queues, t, prio, m)
  }

  lemma FrontAppend(queues: seq<seq<Task>>, t: Task, prio: int, k: nat, b: int, p: Task)
    requires FrontWithin(queues, t, prio, k) && prio <= b < |queues|
    ensures FrontWithin(queues[b := queues[b] + [p]], t, prio, k)
  {
    var m: nat :| m <= k && Front(queues, t, prio, m);
    assert Front(queues[b := queues[b] + [p]], t, prio, m);
  }

  lemma FrontWithout(queues: seq<seq<Task>>, t: Task, prio: int, k: nat, b: int, p: Task)
    requires FrontWithin(queues, t, prio, k) && 0 <= b < |queues| && p in queues[b] && Unique(queues[b]) && p != t
    ensures FrontWithin(queues[b := Without(queues[b], p)], t, prio, k)
  {
    var m: nat :| m <= k && Front(queues, t, prio, m);
    var i := WithoutAt(queues[b], p);
    assert Front(queues[b := Removed(queues[b], i)], t, prio, if b == prio && i < m then m - 1 else m);
  }

  lemma FirstOfMore(q: seq<Task>, more: set<Task>)
    requires q != [] && Extends(q, [], more)
    ensures q[0] in more
  {}

  lemma FrontJoined(queues: seq<seq<Task>>, before: seq<seq<Task>>, more: set<Task>, t: Task, prio: int, k: nat)
    requires FrontWithin(before, t, prio, k) && Joined(queues, before, more)
    requires forall b, i :: 0 <= b < prio && b < |queues| && 0 <= i < |queues[b]| ==> queues[b][i] !in more
    ensures FrontWithin(queues, t, prio, k)
  {
    var m: nat :| m <= k && Front(before, t, prio, m);
    forall b | 0 <= b < prio ensures queues[b] == [] {
      assert Extends(queues[b], before[b], more);
      if queues[b] != [] { FirstOfMore(queues[b], more); }
    }
    assert Extends(queues[prio], before[prio], more);
    assert Front(queues, t, prio, m);
  }

  /** What can happen between two calls of `schedule`. */
  datatype Act =
    | Readies(p: Task)
    | Wakes(p: Task)
    | Blocks(p: Task)
    | Sleeps(p: Task, timeout: nat)
    | Exits
    | Ticks

  ghost predicate Known(a: Act, tasks: set<Task>)
  {
    a.Readies? || a.Wakes? || a.Blocks? || a.Sleeps? ==> a.p in tasks
  }

  class Scheduler {
    const idle: Task
    var curr: Task?
    var queues: seq<seq<Task>>
    var bitmap: seq<bool>
    var nrRunning: nat
    var sleepers: seq<Task>
    var clock: nat
    var needResched: bool
    ghost var tasks: set<Task>

    /** `scheduler_init` with the idle process. */
    constructor (i: Task)
      requires 0 <= i.priority < MAX_PRIO && !i.onRun && !i.onSleep && !i.exiting
      ensures Valid() && idle == i && curr == null && tasks == {i}
    {
      idle, curr, tasks := i, null, {i};
      queues, bitmap, nrRunning := seq(MAX_PRIO, _ => []), seq(MAX_PRIO, _ => false), 0;
      sleepers, clock, needResched := [], 0, false;
      new;
      TotalNone(queues);
    }

    /** A new process that the scheduler does not know yet. */
    ghost method Admit(p: Task)
      requires Valid() && p !in tasks && p.state == Created && !p.onRun && !p.onSleep && !p.exiting
      requires 0 <= p.priority < MAX_PRIO
      modifies `tasks
      ensures Valid() && tasks == old(tasks) + {p}
    {
      tasks := tasks + {p};
    }

    /** The queues alone: no duplicates, each task in the queue of its priority, bitmap and count exact. */
    ghost predicate Tables()
      reads `queues, `bitmap, `nrRunning, `tasks, tasks`priority, tasks`onRun
      ensures Tables() ==> |queues| == MAX_PRIO
    {
      |queues| == MAX_PRIO && |bitmap| == MAX_PRIO && nrRunning == Total(queues) &&
      (forall b :: 0 <= b < MAX_PRIO ==> Unique(queues[b]) && (bitmap[b] <==> queues[b] != [])) &&
      (forall b, t :: 0 <= b < MAX_PRIO && t in queues[b] ==> t in tasks && t.priority == b && t.onRun)
    }

    ghost predicate Asleep()
      reads `sleepers, `tasks, tasks`onSleep
    {
      Unique(sleepers) && forall t :: t in sleepers ==> t in tasks && t.onSleep
    }

    /** Where one task is: waiting in its queue, running, asleep, or nowhere. */
    ghost predicate Placed(t: Task)
      requires |queues| == MAX_PRIO
      reads `queues, `sleepers, `curr, t
    {
      0 <= t.priority < MAX_PRIO &&
      (t.onRun ==> t in queues[t.priority] && t.state == Ready && t != idle) &&
      (t.onSleep ==> t in sleepers && t.state == Sleeping && t != idle) &&
      (t.state == Running && t != idle ==> t == curr) &&
      (t.exiting ==> t.state != Ready && t.state != Running)
    }

    ghost predicate Valid()
      reads this, tasks
    {
      idle in tasks && !idle.exiting && (curr != null ==> curr in tasks) && Tables() && Asleep() && forall t :: t in tasks ==> Placed(t)
    }

    /** `rr_enqueue`. */
    method Enqueue(p: Task)
      requires Tables() && Asleep() && p in tasks && (0 <= p.priority < MAX_PRIO)
      modifies `queues, `bitmap, `nrRunning, p`onRun
      ensures Tables() && Asleep() && p.onRun
      ensures old(p.onRun) ==> queues == old(queues)
      ensures !old(p.onRun) ==> queues == old(queues)[p.priority := old(queues)[p.priority] + [p]]
    {
      var prio := Clamp(p.priority);
      if p.onRun {
        return;
      }
      TotalUpdate(queues, prio, queues[prio] + [p]);
      queues := queues[prio := queues[prio] + [p]];
      p.onRun := true;
      bitmap := bitmap[prio := true];
      nrRunning := nrRunning + 1;
    }

    /** `rr_dequeue`. */
    method Dequeue(p: Task)
      requires Tables() && Asleep() && p in tasks && 0 <= p.priority < MAX_PRIO
      requires p.onRun ==> p in queues[p.priority]
      modifies `queues, `bitmap, `nrRunning, p`onRun
      ensures Tables() && Asleep() && !p.onRun
      ensures !old(p.onRun) ==> queues == old(queues)
      ensures old(p.onRun) ==> queues == old(queues)[p.priority := Without(old(queues)[p.priority], p)]
      ensures forall b, t :: 0 <= b < MAX_PRIO && t in old(queues)[b] && t != p ==> t in queues[b]
    {
      if !p.onRun {
        return;
      }
      var prio := p.priority;
      var q := Without(queues[prio], p);
      UniqueWithout(queues[prio], p);
      TotalUpdate(queues, prio, q);
      assert forall t :: t in q <==> t in Elems(q);
      queues := queues[prio := q];
      p.onRun := false;
      if queues[prio] == [] {
        bitmap := bitmap[prio := false];
      }
      if nrRunning > 0 {
        nrRunning := nrRunning - 1;
      }
    }

    /** `rr_pick_next`: idle only when every queue is empty; bits of empty queues may be cleared on the way. */
    method PickNext() returns (next: Task, ghost b: nat)
      requires |queues| == MAX_PRIO && |bitmap| == MAX_PRIO && forall a :: 0 <= a < MAX_PRIO && queues[a] != [] ==> bitmap[a]
      modifies `bitmap
      ensures |bitmap| == MAX_PRIO
      ensures forall a :: 0 <= a < MAX_PRIO && (queues[a] != [] || !old(bitmap)[a]) ==> bitmap[a] == old(bitmap)[a]
      ensures Best(queues, b) ==> next == queues[b][0]
      ensures !Best(queues, b) ==> next == idle && forall a :: 0 <= a < MAX_PRIO ==> queues[a] == []
    {
      var prio := 0;
      while prio < MAX_PRIO
        invariant 0 <= prio <= MAX_PRIO && |bitmap| == MAX_PRIO
        invariant forall a :: 0 <= a < MAX_PRIO && (queues[a] != [] || !old(bitmap)[a]) ==> bitmap[a] == old(bitmap)[a]
        invariant forall a :: 0 <= a < prio ==> queues[a] == []
      {
        if bitmap[prio] {
          if queues[prio] != [] {
            return queues[prio][0], prio;
          }
          bitmap := bitmap[prio := false];
        }
        prio := prio + 1;
      }
      return idle, MAX_PRIO;
    }

    method Unsleep(p: Task)
      requires Tables() && Asleep() && p in tasks && (p.onSleep ==> p in sleepers)
      modifies `sleepers, p`onSleep, p`wakeup
      ensures Tables() && Asleep() && !p.onSleep
      ensures !old(p.onSleep) ==> sleepers == old(sleepers) && p.wakeup == old(p.wakeup)
      ensures old(p.onSleep) ==> sleepers == Without(old(sleepers), p)
      ensures forall t :: t in old(sleepers) && t != p ==> t in sleepers
      ensures forall t :: t in sleepers ==> t in old(sleepers)
    {
      if p.onSleep {
        UniqueWithout(sleepers, p);
        sleepers := Without(sleepers, p);
        assert forall t :: t in sleepers <==> t in Elems(sleepers);
        p.onSleep := false;
        p.wakeup := 0;
      }
    }

    /** `scheduler_enqueue`. */
    method MakeReady(p: Task)
      requires Valid() && p in tasks
      modifies `queues, `bitmap, `nrRunning, `sleepers, p`state, p`timeSlice, p`onRun, p`onSleep, p`wakeup
      ensures Valid()
      ensures p == idle || !old(p.Schedulable()) ==> queues == old(queues) && sleepers == old(sleepers) && p.state == old(p.state)
      ensures p != idle ==> (old(p.Schedulable()) <==> !p.exiting && old(p.state) != Zombie && old(p.state) != Dead)
      ensures p != idle && old(p.Schedulable()) ==>
        p.state == Ready && p.onRun && !p.onSleep && p.timeSlice == TimeSlice(p.nice) &&
        queues == if old(p.onRun) then old(queues) else old(queues)[p.priority := old(queues)[p.priority] + [p]]
      ensures forall t :: t in sleepers ==> t in old(sleepers)
      ensures p != idle && old(p.Schedulable()) ==> sleepers == if old(p.onSleep) then Without(old(sleepers), p) else old(sleepers)
    {
      if p == idle || !p.Schedulable() {
        return;
      }
      Activate(p);
    }

    method Activate(p: Task)
      requires Valid() && p in tasks && p != idle && !p.exiting
      modifies `queues, `bitmap, `nrRunning, `sleepers, p`state, p`timeSlice, p`onRun, p`onSleep, p`wakeup
      ensures Valid() && p.state == Ready && p.onRun && !p.onSleep && p.timeSlice == TimeSlice(p.nice)
      ensures sleepers == if old(p.onSleep) then Without(old(sleepers), p) else old(sleepers)
      ensures queues == if old(p.onRun) then old(queues) else old(queues)[p.priority := old(queues)[p.priority] + [p]]
      ensures forall t :: t in sleepers ==> t in old(sleepers)
    {
      hide Tables, Asleep, Unique, Without;
      assert Placed(p);
      Unsleep(p);
      p.state := Ready;
      p.timeSlice := TimeSlice(p.nice);
      Enqueue(p);
    }

    /** The queues with the running task put back at the end of its own. */
    ghost function Waiting(): (q: seq<seq<Task>>)
      requires Valid()
      reads this, tasks
      ensures |q| == MAX_PRIO
    {
      if curr != null && curr != idle && curr.state == Running then queues[curr.priority := queues[curr.priority] + [curr]]
      else queues
    }

    /** The first part of `schedule`: a current task that can go on is queued again. */
    method Park()
      requires Valid()
      modifies `queues, `bitmap, `nrRunning, tasks`state, tasks`onRun
      ensures Valid() && queues == old(Waiting())
      ensures forall t :: t in tasks && t != idle ==> t.state != Running
      ensures forall t :: t in tasks && t.state != old(t.state) ==> t == curr && old(t.state) == Running
    {
      hide Tables, Asleep, Unique, Without;
      if curr != null && curr != idle && curr.state == Running && curr.Schedulable() {
        assert Placed(curr);
        var prev: Task := curr;
        prev.state := Ready;
        Enqueue(prev);
      }
    }

    /** The middle of `schedule`: the best waiting task leaves its queue. */
    method Choose() returns (next: Task)
      requires Valid()
      modifies `queues, `bitmap, `nrRunning, tasks`onRun
      ensures Valid() && next in tasks && !next.onRun && !next.onSleep
      ensures next != idle ==> next.Schedulable()
      ensures forall b: nat :: Best(old(queues), b) ==> next == old(queues)[b][0] && queues == old(queues)[b := old(queues)[b][1..]]
      ensures (forall b: nat :: !Best(old(queues), b)) ==> next == idle && queues == old(queues)
    {
      ghost var b;
      next, b := PickNext();
      assert bitmap == old(bitmap);
      assert Placed(next);
      if next != idle && !next.Schedulable() {
        next := idle;
      }
      if next != idle && next.state == Ready {
        TakeFirst(next, b);
      }
    }

    method TakeFirst(next: Task, ghost b: nat)
      requires Valid() && Best(queues, b) && next == queues[b][0]
      modifies `queues, `bitmap, `nrRunning, next`onRun
      ensures Valid() && !next.onRun && queues == old(queues)[b := old(queues)[b][1..]]
    {
      hide Asleep, Unique, Total;
      assert Placed(next);
      assert Without(queues[b], next) == queues[b][1..];
      forall t | t in queues[b] && t != next ensures t in queues[b][1..] {
        assert queues[b] == [next] + queues[b][1..];
      }
      Dequeue(next);
    }

    /** `schedule`, up to the switch of stacks. */
    method Schedule()
      requires Valid()
      modifies `queues, `bitmap, `nrRunning, `curr, `needResched, tasks`state, tasks`onRun, tasks`timeSlice
      ensures Valid() && curr != null && curr.state == Running && !curr.onRun && !needResched
      ensures forall b: nat :: Best(old(Waiting()), b) ==>
        curr == old(Waiting())[b][0] && queues == old(Waiting())[b := old(Waiting())[b][1..]]
      ensures (forall b: nat :: !Best(old(Waiting()), b)) ==> curr == idle && queues == old(Waiting())
      ensures forall t :: t in tasks && t != curr && t.state != old(t.state) ==> t == old(curr) && old(t.state) == Running
      ensures forall t :: t in tasks ==> t.timeSlice == if t == curr && old(t.timeSlice) <= 0 then TimeSlice(t.nice) else old(t.timeSlice)
    {
      hide Tables, Asleep, Best, Placed;
      Park();
      var next := Choose();
      Run(next);
    }

    method Run(next: Task)
      requires Valid() && next in tasks && !next.onRun && !next.onSleep && !next.exiting
      requires forall t :: t in tasks && t != idle ==> t.state != Running
      modifies `curr, `needResched, next`state, next`timeSlice
      ensures Valid() && curr == next && next.state == Running && !needResched
      ensures next.timeSlice == if old(next.timeSlice) <= 0 then TimeSlice(next.nice) else old(next.timeSlice)
    {
      hide Tables, Asleep;
      if next.timeSlice <= 0 {
        next.timeSlice := TimeSlice(next.nice);
      }
      next.state := Running;
      curr, needResched := next, false;
    }

    /** `scheduler_sleep` before it calls `schedule`. */
    method Block(p: Task)
      requires Valid() && p in tasks && p != idle
      modifies `queues, `bitmap, `nrRunning, `sleepers, p`state, p`onRun, p`onSleep, p`wakeup
      ensures Valid() && p.state == Blocked && !p.onRun && !p.onSleep && p.wakeup == 0
      ensures queues == if old(p.onRun) then old(queues)[p.priority := Without(old(queues)[p.priority], p)] else old(queues)
      ensures sleepers == if old(p.onSleep) then Without(old(sleepers), p) else old(sleepers)
    {
      hide Tables, Asleep, Unique, Without;
      p.state := Blocked;
      Dequeue(p);
      Unsleep(p);
      p.wakeup := 0;
    }

    /** `scheduler_sleep_timeout` before it calls `schedule`. */
    method SleepFor(p: Task, timeout: nat)
      requires Valid() && p in tasks && p != idle
      modifies `queues, `bitmap, `nrRunning, `sleepers, p`state, p`onRun, p`onSleep, p`wakeup
      ensures Valid() && p.state == Sleeping && !p.onRun && p.onSleep && p.wakeup == clock + timeout
      ensures queues == if old(p.onRun) then old(queues)[p.priority := Without(old(queues)[p.priority], p)] else old(queues)
      ensures sleepers == (if old(p.onSleep) then Without(old(sleepers), p) else old(sleepers)) + [p]
    {
      hide Tables, Without, Total;
      Block(p);
      p.state := Sleeping;
      p.wakeup := clock + timeout;
      sleepers := sleepers + [p];
      p.onSleep := true;
    }

    predicate Outranks(p: Task)
      reads `curr, p`priority, if curr == null then {} else {curr}`priority
    {
      curr == idle || (curr != null && p.priority < curr.priority)
    }

    /** `scheduler_wake`. */
    method Wake(p: Task)
      requires Valid() && p in tasks
      modifies `queues, `bitmap, `nrRunning, `sleepers, `needResched, p`state, p`timeSlice, p`onRun, p`onSleep, p`wakeup
      ensures Valid()
      ensures old(p.state) == Blocked || old(p.state) == Sleeping ==> p == idle || p.exiting || (p.state == Ready && p.onRun)
      ensures p.state == old(p.state) || ((old(p.state) == Blocked || old(p.state) == Sleeping) && p.state == Ready)
      ensures queues == if (old(p.state) == Blocked || old(p.state) == Sleeping) && p != idle && !p.exiting
                        then old(queues)[p.priority := old(queues)[p.priority] + [p]] else old(queues)
      ensures needResched <==> old(needResched) || ((old(p.state) == Blocked || old(p.state) == Sleeping) &&
                                                    (curr == idle || (curr != null && p.priority < curr.priority)))
    {
      hide Tables, Asleep, Unique, Without;
      if p.state == Blocked || p.state == Sleeping {
        Unsleep(p);
        MakeReady(p);
        if Outranks(p) {
          needResched := true;
        }
      }
    }

    /**
     * `rr_set_priority`, for a task other than idle. A running task is put on a queue while it
     * runs, so the state stays valid exactly when the task is not running.
     */
    method SetPriority(p: Task, prio: int)
      requires Valid() && p in tasks && p != idle
      modifies `queues, `bitmap, `nrRunning, p`priority, p`onRun
      ensures Valid() <==> p.state != Running
      ensures p.priority == Clamp(prio)
      ensures p.state == Ready ==> p.onRun && queues[p.priority] != [] && queues[p.priority][|queues[p.priority]| - 1] == p
    {
      hide Tables, Asleep, Unique, Without;
      assert Placed(p);
      var q := Clamp(prio);
      if p.state == Ready || p.state == Running {
        Dequeue(p);
        Reprioritise(p, q);
        Enqueue(p);
      } else {
        Reprioritise(p, q);
      }
    }

    method Reprioritise(p: Task, q: nat)
      requires Tables() && p in tasks && !p.onRun
      modifies p`priority
      ensures Tables() && p.priority == q
    {
      p.priority := q;
    }

    /** `scheduler_exit` before it calls `schedule`. */
    method Retire()
      requires Valid() && curr != null && curr != idle && curr.state == Running
      modifies curr`exiting, curr`state
      ensures Valid() && curr.exiting && curr.state == Zombie
    {
      hide Tables, Asleep;
      curr.exiting := true;
      curr.state := Zombie;
    }

    /** `scheduler_exit` of a running process. */
    method Exit()
      requires Valid() && curr != null && curr != idle && curr.state == Running
      modifies `queues, `bitmap, `nrRunning, `curr, `needResched, tasks`state, tasks`onRun, tasks`timeSlice, curr`exiting
      ensures Valid() && old(curr).exiting && old(curr).state == Zombie && curr != old(curr)
    {
      hide Tables, Asleep;
      var p: Task := curr;
      Retire();
      Schedule();
      assert Placed(p);
    }

    /** The sleepers whose time has come at `at` and that can still run. */
    ghost function Due(at: nat): set<Task>
      reads this, sleepers
    {
      set u | u in sleepers && u.wakeup <= at && !u.exiting
    }

    lemma SleepersSleep()
      requires Valid()
      ensures Unique(sleepers) && forall u :: u in sleepers ==> u in tasks && u.onSleep
    {}

    /** The sleeper scan of `scheduler_tick`: every task whose time has come is ready. */
    method WakeDue()
      requires Valid()
      modifies `queues, `bitmap, `nrRunning, `sleepers, tasks`state, tasks`timeSlice, tasks`onRun, tasks`onSleep, tasks`wakeup
      ensures Valid()
      ensures forall t :: t in sleepers ==> t in old(sleepers) && t.wakeup > clock
      ensures forall t :: t in old(sleepers) && old(t.wakeup) > clock ==> t.onSleep && t.wakeup == old(t.wakeup)
      ensures forall t :: t in old(sleepers) && old(t.wakeup) <= clock && !t.exiting ==> t.onRun && t.state == Ready
      ensures Joined(queues, old(queues), old(Due(clock)))
      ensures forall t :: t in tasks && t.state != old(t.state) ==> t.state == Ready
    {
      hide Valid, Best, Tables, Placed, Joined, Asleep, Task.Schedulable;
      var list := sleepers;
      SleepersSleep();
      ghost var due := Due(clock);
      JoinedStart(queues, due);
      for i := 0 to |list|
        invariant Valid()
        invariant Joined(queues, old(queues), due)
        invariant forall t :: t in tasks && t.state != old(t.state) ==> t.state == Ready
        invariant forall k :: 0 <= k < |list| ==> list[k].Settled(clock, k < i)
        invariant forall t :: t in sleepers ==> t in list
      {
        ghost var mid := queues;
        Expire(list[i]);
        JoinedStep(queues, mid, old(queues), list[i], due);
      }
      SleepersSleep();
    }

    method Expire(t: Task)
      requires Valid() && t in tasks && t.onSleep
      modifies `queues, `bitmap, `nrRunning, `sleepers, t`state, t`timeSlice, t`onRun, t`onSleep, t`wakeup
      ensures Valid()
      ensures old(t.wakeup) > clock ==> t.onSleep && t.wakeup == old(t.wakeup) && sleepers == old(sleepers)
      ensures old(t.wakeup) <= clock ==> !t.onSleep && (t.exiting || (t.onRun && t.state == Ready))
      ensures forall u :: u in sleepers ==> u in old(sleepers)
      ensures Joined(queues, old(queues), if old(t.wakeup) <= clock && !t.exiting then {t} else {}) && (t.state == old(t.state) || t.state == Ready)
    {
      hide Tables, Asleep;
      if t.state == Sleeping && t.wakeup <= clock {
        Unsleep(t);
        MakeReady(t);
      }
    }

    /** `scheduler_tick`. */
    method Tick()
      requires Valid()
      modifies `queues, `bitmap, `nrRunning, `sleepers, `clock, `needResched
      modifies tasks`state, tasks`timeSlice, tasks`onRun, tasks`onSleep, tasks`wakeup
      ensures Valid() && clock == old(clock) + TICK_MS
      ensures forall t :: t in sleepers ==> t in old(sleepers) && t.wakeup > clock
      ensures forall t :: t in old(sleepers) && old(t.wakeup) > clock ==> t.onSleep && t.wakeup == old(t.wakeup)
      ensures forall t :: t in old(sleepers) && old(t.wakeup) <= clock && !t.exiting ==> t.onRun && t.state == Ready
      ensures needResched <==> old(needResched) || old(Spent())
      ensures Joined(queues, old(queues), old(Due(clock + TICK_MS)))
      ensures forall t :: t in tasks && t.state != old(t.state) ==> t.state == Ready
    {
      hide Joined, Tables, Asleep, Placed;
      ghost var due := Due(clock + TICK_MS);
      Charge();
      clock := clock + TICK_MS;
      assert Due(clock) == due;
      WakeDue();
    }

    /** The running task uses up its slice while another one waits. */
    predicate Spent()
      reads `curr, `nrRunning, if curr == null then {} else {curr}`timeSlice
    {
      curr != null && curr != idle && curr.timeSlice <= 1 && nrRunning > 0
    }

    /** `rr_tick`. */
    method Charge()
      requires Valid()
      modifies `needResched, tasks`timeSlice
      ensures Valid()
      ensures needResched <==> old(needResched) || old(Spent())
      ensures forall t :: t in tasks ==>
        t.timeSlice == if t == curr && t != idle then Charged(old(t.timeSlice), nrRunning, t.nice) else old(t.timeSlice)
    {
      hide Tables, Asleep, TimeSlice;
      if curr != null && curr != idle {
        curr.timeSlice := curr.timeSlice - 1;
        if curr.timeSlice <= 0 {
          if nrRunning > 0 {
            needResched := true;
          } else {
            curr.timeSlice := TimeSlice(curr.nice);
          }
        }
      }
    }

    /** `t` waits at position `k` of the best queue and the running task is no better. */
    ghost predicate Turn(t: Task, k: nat)
      requires Valid() && t in tasks
      reads this, tasks
    {
      Front(queues, t, t.priority, k) &&
      (curr != null && curr != idle && curr.state == Running ==> curr.priority >= t.priority)
    }

    /** `t` is at position `k` or nearer to the front. */
    ghost predicate TurnWithin(t: Task, k: nat)
      requires Valid() && t in tasks
      reads this, tasks
    {
      FrontWithin(queues, t, t.priority, k) && (curr != null && curr != idle && curr.state == Running ==> curr.priority >= t.priority)
    }

    lemma CurrentKnown()
      requires Valid()
      ensures curr != null ==> curr in tasks
    {}

    lemma QueuedAt(p: Task)
      requires Valid() && p in tasks
      ensures 0 <= p.priority < |queues| && (p.onRun ==> p in queues[p.priority] && Unique(queues[p.priority]))
    {
      assert Placed(p);
    }

    lemma NoneBetter(t: Task, due: set<Task>)
      requires Valid() && t in tasks && forall u :: u in due ==> u.priority >= t.priority
      ensures forall b, i :: 0 <= b < t.priority && b < |queues| && 0 <= i < |queues[b]| ==> queues[b][i] !in due
    {
      forall b, i | 0 <= b < t.priority && b < |queues| && 0 <= i < |queues[b]|
        ensures queues[b][i] !in due
      {
        assert queues[b][i] in queues[b] && b < MAX_PRIO;
      }
    }

    /** Something that a task other than `t` does, or the clock. */
    predicate Permits(a: Act, t: Task)
    {
      match a
      case Readies(p) => true
      case Wakes(p) => true
      case Blocks(p) => p != t && p != idle
      case Sleeps(p, timeout) => p != t && p != idle
      case Exits => true
      case Ticks => true
    }

    /** It makes a task of a better priority than `t` ready. */
    predicate Overtakes(a: Act, t: Task)
      reads this, t, sleepers, if a.Readies? || a.Wakes? then {a.p} else {}
    {
      match a
      case Readies(p) => p.priority < t.priority && p != idle && p.Schedulable()
      case Wakes(p) => p.priority < t.priority && p != idle && p.Schedulable() && (p.state == Blocked || p.state == Sleeping)
      case Blocks(p) => false
      case Sleeps(p, timeout) => false
      case Exits => false
      case Ticks => exists u :: u in sleepers && u.wakeup <= clock + TICK_MS && !u.exiting && u.priority < t.priority
    }

    /** What an act does to the task it names, to the running task, or to the clock and the sleepers. */
    twostate predicate Done(a: Act)
      reads this, sleepers, if curr == null then {} else {curr}, if a.Exits? || a.Ticks? then {} else {a.p}
    {
      match a
      case Readies(p) => p != idle && old(p.Schedulable()) ==> p.state == Ready && p.onRun && !p.onSleep
      case Wakes(p) => (old(p.state) == Blocked || old(p.state) == Sleeping) && p != idle && !p.exiting ==> p.state == Ready && p.onRun
      case Blocks(p) => p.state == Blocked && !p.onRun && !p.onSleep
      case Sleeps(p, timeout) => p.state == Sleeping && !p.onRun && p.onSleep && p.wakeup == clock + timeout
      case Exits => old(curr != null && curr != idle && curr.state == Running) ==> curr != null && curr.exiting && curr.state == Zombie
      case Ticks => clock == old(clock) + 4 && forall u :: u in sleepers ==> u.wakeup > clock
    }

    /** A task other than `t` leaves the queues, or a task no better than `t` joins them. */
    method Moves(a: Act, ghost t: Task, ghost k: nat)
      requires Valid() && t in tasks && TurnWithin(t, k) && Permits(a, t) && !Overtakes(a, t)
      requires (a.Readies? || a.Wakes? || a.Blocks? || a.Sleeps?) && a.p in tasks
      modifies `queues, `bitmap, `nrRunning, `sleepers, `needResched
      modifies a.p`state, a.p`timeSlice, a.p`onRun, a.p`onSleep, a.p`wakeup
      ensures Valid() && TurnWithin(t, k) && Done(a)
    {
      hide Valid, FrontWithin, Unique, Without;
      ghost var q := queues;
      QueuedAt(a.p);
      if (a.Readies? || a.Wakes?) && a.p.priority >= t.priority { FrontAppend(q, t, t.priority, k, a.p.priority, a.p); }
      if (a.Blocks? || a.Sleeps?) && a.p.onRun { FrontWithout(q, t, t.priority, k, a.p.priority, a.p); }
      match a
      case Readies(p) =>
        MakeReady(p);
      case Wakes(p) =>
        Wake(p);
      case Blocks(p) =>
        Block(p);
      case Sleeps(p, timeout) =>
        SleepFor(p, timeout);
    }

    /** Whatever else happens, `t` keeps its place or moves forward. */
    method Happens(a: Act, ghost t: Task, ghost k: nat)
      requires Valid() && t in tasks && TurnWithin(t, k) && Permits(a, t) && !Overtakes(a, t)
      requires Known(a, tasks)
      modifies `queues, `bitmap, `nrRunning, `sleepers, `clock, `needResched
      modifies tasks`state, tasks`timeSlice, tasks`onRun, tasks`onSleep, tasks`wakeup, tasks`exiting
      ensures Valid() && TurnWithin(t, k) && Done(a)
    {
      hide Valid, FrontWithin, Unique, Joined;
      CurrentKnown();
      match a
      case Exits =>
        if curr != null && curr != idle && curr.state == Running {
          Retire();
        }
      case Ticks =>
        ghost var q, due := queues, Due(clock + TICK_MS);
        Tick();
        NoneBetter(t, due);
        FrontJoined(queues, q, due, t, t.priority, k);
      case _ =>
        Moves(a, t, k);
    }

    /** One call of `schedule` serves the front of the best queue or moves `t` one place forward. */
    method Round(ghost t: Task, ghost k: nat)
      requires Valid() && t in tasks && Turn(t, k)
      modifies `queues, `bitmap, `nrRunning, `curr, `needResched, tasks`state, tasks`onRun, tasks`timeSlice
      ensures Valid() && (if k == 0 then curr == t else Turn(t, k - 1))
    {
      hide Asleep, Unique, Total;
      ghost var w := Waiting();
      assert Best(w, t.priority) && w[t.priority][k] == t && w[t.priority][0].priority == t.priority;
      Schedule();
    }

    /** One call of `schedule` runs `t` or brings it nearer to the front. */
    method RoundWithin(ghost t: Task, ghost k: nat)
      requires Valid() && t in tasks && TurnWithin(t, k)
      modifies `queues, `bitmap, `nrRunning, `curr, `needResched, tasks`state, tasks`onRun, tasks`timeSlice
      ensures Valid() && (curr == t || (k > 0 && TurnWithin(t, k - 1)))
    {
      hide Valid, Front;
      ghost var m: nat :| m <= k && Front(queues, t, t.priority, m);
      Round(t, m);
    }

    /**
     * Bounded waiting: the task at position `k` of the best queue is running after at most `k + 1` calls of
     * `schedule`, whoever becomes ready, wakes, blocks, sleeps, exits or is woken by the clock in between,
     * unless one of these makes a task of a better priority ready: `overtaken` then says that after `rounds`
     * calls it is the turn of such an act, the one at position `at`.
     */
    method WaitsAtMost(t: Task, ghost k: nat, acts: seq<seq<Act>>) returns (rounds: nat, overtaken: bool, ghost at: nat)
      requires Valid() && t in tasks && Turn(t, k) && |acts| > k
      requires forall i, j :: 0 <= i < |acts| && 0 <= j < |acts[i]| ==> Permits(acts[i][j], t)
      requires forall i, j :: 0 <= i < |acts| && 0 <= j < |acts[i]| ==> Known(acts[i][j], tasks)
      modifies this, tasks
      ensures Valid() && rounds <= k + 1 && tasks == old(tasks)
      ensures !overtaken ==> curr == t
      ensures overtaken ==> rounds <= k && at < |acts[rounds]| && Overtakes(acts[rounds][at], t) && TurnWithin(t, k - rounds)
    {
      hide Valid, Front, Permits;
      rounds, overtaken, at := 0, false, 0;
      assert TurnWithin(t, k);
      while true
        invariant Valid() && tasks == old(tasks) && rounds <= k && TurnWithin(t, k - rounds)
        decreases k - rounds
      {
        for j: nat := 0 to |acts[rounds]|
          invariant Valid() && tasks == old(tasks) && TurnWithin(t, k - rounds)
        {
          var a := acts[rounds][j];
          if Overtakes(a, t) {
            overtaken, at := true, j;
            return;
          }
          Happens(a, t, k - rounds);
        }
        RoundWithin(t, k - rounds);
        rounds := rounds + 1;
        if curr == t {
          return;
        }
      }
    }
  }
}
