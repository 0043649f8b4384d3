/** The cooperative scheduler of `src/kernel/thread.c` as a transition system: what the
    kernel does on values.  `Kernel` proves that the code on memory takes these steps.
    The last three fields of a state are history. */
module Scheduler {
  import opened Words

  type Tid = nat   // the address of a struct thread

  datatype Sched = Sched(
    queue: seq<Tid>,
    count: nat,              // no_threads
    ready: set<Tid>,
    current: Option<Tid>,    // None before thread_start_scheduler
    idle: Tid,
    created: seq<Tid>,       // by thread_create, in order
    dispatched: seq<Tid>,    // loaded or switched to, in order
    finished: seq<Tid>)      // whose function returned, in order

  /** `thread_get_next`: the idle thread when the queue is empty, else its first thread.
      The pop inside asserts that the queue is not empty and reads its first node. */
  function GetNext(s: Sched): (Tid, Sched)
    requires s.count == |s.queue|
  {
    if s.count == 0 then (s.idle, s)
    else (s.queue[0], s.(queue := s.queue[1..], count := s.count - 1))
  }

  function Add(s: Sched, t: Tid): Sched {
    s.(queue := s.queue + [t], count := s.count + 1)
  }

  /** `thread_reschedule`, with the branch that requeues a ready current thread. */
  function Reschedule(s: Sched): Sched
    requires s.count == |s.queue| && s.current.Some?
  {
    var (next, s1) := GetNext(s);
    var s2 := s1.(current := Some(next));
    var s3 := if s.current.value != s.idle && s.current.value in s.ready then Add(s2, s.current.value) else s2;
    s3.(dispatched := s3.dispatched + [next])
  }

  datatype Event =
    | Create(t: Tid)   // thread_create succeeds
    | Start            // thread_start_scheduler
    | Finish           // the current thread's function returns to thread_main

  function Initial(idle: Tid): Sched {
    Sched([], 0, {idle}, None, idle, [], [], [])
  }

  /** What this code can do: create threads at fresh addresses, start once, and finish any
      thread but the idle one, whose function never returns. */
  predicate Enabled(s: Sched, e: Event) {
    s.count == |s.queue| &&
    match e
    case Create(t) => t != s.idle && t !in s.created
    case Start => s.current.None?
    case Finish => s.current.Some? && s.current.value != s.idle
  }

  function Step(s: Sched, e: Event): Sched
    requires Enabled(s, e)
  {
    match e
    case Create(t) => Add(s, t).(ready := s.ready + {t}, created := s.created + [t])
    case Start =>
      var (first, s1) := GetNext(s);
      s1.(current := Some(first), dispatched := s.dispatched + [first])
    case Finish =>
      var c := s.current.value;
      Reschedule(s.(ready := s.ready - {c}, finished := s.finished + [c]))
  }

  ghost predicate Differ(t: Tid, u: Tid) {
    t != u
  }

  ghost predicate Distinct(s: seq<Tid>) {
    forall i, j {:trigger Differ(s[i], s[j])} :: 0 <= i < j < |s| ==> Differ(s[i], s[j])
  }

  /** How many threads other than the idle one have been dispatched. */
  function Begun(s: Sched): int {
    |s.dispatched| - if s.current == Some(s.idle) then 1 else 0
  }

  lemma {:induction false} SameIndex(s: seq<Tid>, i: nat, j: nat)
    requires Distinct(s) && i < |s| && j < |s| && s[i] == s[j]
    ensures i == j
  {
    assert i < j ==> Differ(s[i], s[j]);
    assert j < i ==> Differ(s[j], s[i]);
  }

  /** The queue is what was created and not yet dispatched, dispatch follows creation order,
      and everything dispatched but a running non-idle thread has finished. */
  ghost predicate Inv(s: Sched) {
    var n := Begun(s);
    && 0 <= n <= |s.created| && Distinct(s.created) && s.idle !in s.created
    && s.count == |s.queue| && s.queue == s.created[n..]
    && (s.current.None? ==> s.dispatched == [] && s.finished == [])
    && (s.current == Some(s.idle) ==> s.dispatched == s.created[..n] + [s.idle] && s.finished == s.created[..n])
    && (s.current.Some? && s.current.value != s.idle ==>
          n > 0 && s.dispatched == s.created[..n] && s.current.value == s.created[n - 1] && s.finished == s.created[..n - 1])
    && (forall t :: t in s.ready <==> t == s.idle || (t in s.created && t !in s.finished))
  }

  /** `u` is reached from `s` by `later`. */
  ghost predicate Leads(s: Sched, later: seq<Event>, u: Sched)
    decreases |later|
  {
    if later == [] then u == s
    else Enabled(s, later[0]) && Leads(Step(s, later[0]), later[1..], u)
  }

  ghost predicate Reachable(s: Sched, idle: Tid, events: seq<Event>) {
    Leads(Initial(idle), events, s)
  }

  lemma {:induction false} CreateKeeps(s: Sched, t: Tid)
    requires Inv(s) && Enabled(s, Create(t))
    ensures Inv(Step(s, Create(t)))
  {
    var u, n := Step(s, Create(t)), Begun(s);
    forall i, j | 0 <= i < j < |u.created| ensures Differ(u.created[i], u.created[j]) {
      if j < |s.created| { assert Differ(s.created[i], s.created[j]); }
    }
    assert u.created[n..] == s.created[n..] + [t] && u.created[..n] == s.created[..n];
    assert n > 0 ==> u.created[..n - 1] == s.created[..n - 1];
    assert forall x :: x in s.finished ==> x in s.created;
  }

  lemma {:induction false} StartKeeps(s: Sched)
    requires Inv(s) && Enabled(s, Start)
    ensures Inv(Step(s, Start))
  {
    var u := Step(s, Start);
    if s.count > 0 {
      assert s.queue[1..] == s.created[1..] && s.created[..1] == [s.created[0]];
    }
  }

  lemma {:induction false} FinishKeeps(s: Sched)
    requires Inv(s) && Enabled(s, Finish)
    ensures Inv(Step(s, Finish))
  {
    var u, n, c := Step(s, Finish), Begun(s), s.current.value;
    assert s.created[..n] == s.created[..n - 1] + [c];
    assert u.finished == s.created[..n];
    if s.count > 0 {
      assert s.queue[0] == s.created[n];
      assert s.created[..n + 1] == s.created[..n] + [s.created[n]];
      assert s.queue[1..] == s.created[n + 1..];
    }
  }

  lemma {:induction false} StepKeeps(s: Sched, e: Event)
    requires Inv(s) && Enabled(s, e)
    ensures Inv(Step(s, e)) && s.created <= Step(s, e).created && s.idle == Step(s, e).idle
    ensures s.current == Some(s.idle) ==> Step(s, e).current == s.current && Step(s, e).dispatched == s.dispatched
  {
    match e {
      case Create(t) => CreateKeeps(s, t);
      case Start => StartKeeps(s);
      case Finish => FinishKeeps(s);
    }
  }

  /** Every run keeps the invariant, and creation order only grows; once the idle thread
      runs, nothing is dispatched any more. */
  lemma {:induction false} RunKeeps(s: Sched, later: seq<Event>, u: Sched)
    requires Inv(s) && Leads(s, later, u)
    ensures Inv(u) && s.created <= u.created && s.idle == u.idle
    ensures s.current == Some(s.idle) ==> u.current == s.current && u.dispatched == s.dispatched
    decreases |later|
  {
    if later != [] {
      StepKeeps(s, later[0]);
      RunKeeps(Step(s, later[0]), later[1..], u);
    }
  }

  lemma {:induction false} RunInv(s: Sched, idle: Tid, events: seq<Event>)
    requires Reachable(s, idle, events)
    ensures Inv(s) && s.idle == idle
  {
    RunKeeps(Initial(idle), events, s);
  }

  /** A running thread other than the idle one is not in the queue, and neither is the idle one. */
  lemma {:induction false} CurrentNotQueued(s: Sched)
    requires Inv(s)
    ensures s.idle !in s.queue
    ensures s.current.Some? ==> s.current.value !in s.queue
  {
    var n := Begun(s);
    forall t | t in s.queue ensures t in s.created && s.current != Some(t) {
      var j :| 0 <= j < |s.queue| && s.queue[j] == t;
      assert s.created[n + j] == t;
      if n > 0 { assert Differ(s.created[n - 1], s.created[n + j]); }
    }
  }

  /** In every run the thread count is the queue's length, the queue is duplicate-free and
      holds only ready threads, neither idle nor current. */
  lemma {:induction false} QueueInvariant(s: Sched, idle: Tid, events: seq<Event>)
    requires Reachable(s, idle, events)
    ensures s.count == |s.queue| && Distinct(s.queue)
    ensures forall t :: t in s.queue ==> t in s.ready && t != idle && s.current != Some(t)
  {
    RunInv(s, idle, events);
    var n := Begun(s);
    forall t | t in s.queue ensures t in s.ready && t != idle && s.current != Some(t) {
      var j :| 0 <= j < |s.queue| && s.queue[j] == t;
      assert s.created[n + j] == t;
      forall i | 0 <= i < n ensures s.created[i] != t {
        assert Differ(s.created[i], s.created[n + j]);
      }
      assert forall i :: 0 <= i < |s.finished| ==> s.finished[i] == s.created[i];
    }
    forall i, j | 0 <= i < j < |s.queue| ensures Differ(s.queue[i], s.queue[j]) {
      assert Differ(s.created[n + i], s.created[n + j]);
    }
  }

  /** `thread_reschedule` picks the thread it is leaving exactly when the idle thread calls
      it with an empty queue. */
  lemma {:induction false} PicksItself(s: Sched)
    requires s.count == |s.queue| && s.current.Some? && s.current.value !in s.queue
    ensures Reschedule(s).current == s.current <==> s.current.value == s.idle && s.queue == []
  {
    if s.queue != [] { assert s.queue[0] in s.queue; }
  }

  /** So no switch of a run is from a thread to itself, and none requeues the leaver. */
  lemma {:induction false} SwitchesAway(s: Sched, idle: Tid, events: seq<Event>)
    requires Reachable(s, idle, events) && Enabled(s, Finish)
    ensures Step(s, Finish).current != s.current
    ensures s.current.value !in Step(s, Finish).queue
  {
    QueueInvariant(s, idle, events);
    var c := s.current.value;
    PicksItself(s.(ready := s.ready - {c}, finished := s.finished + [c]));
  }

  /** Threads are dispatched in creation order, each at most once. */
  lemma {:induction false} FifoDispatch(s: Sched, idle: Tid, events: seq<Event>)
    requires Reachable(s, idle, events)
    ensures forall i :: 0 <= i < Begun(s) ==> i < |s.created| && s.dispatched[i] == s.created[i]
    ensures Distinct(s.created)
  {
    RunInv(s, idle, events);
  }

  /** The idle thread is dispatched only once every thread created so far has run its
      function to completion, exactly once and in order. */
  lemma {:induction false} IdleLast(s: Sched, e: Event, idle: Tid, events: seq<Event>)
    requires Reachable(s, idle, events) && Enabled(s, e)
    requires s.current != Some(idle) && Step(s, e).current == Some(idle)
    ensures Step(s, e).finished == Step(s, e).created && Distinct(Step(s, e).created)
    ensures Step(s, e).queue == []
  {
    RunInv(s, idle, events);
    StepKeeps(s, e);
  }

  /** A thread created behind k queued threads is dispatched after exactly k others, and
      never if the idle thread already runs. */
  lemma {:induction false} DispatchedAfterQueue(s: Sched, idle: Tid, events: seq<Event>, t: Tid, later: seq<Event>, u: Sched)
    requires Reachable(s, idle, events) && Enabled(s, Create(t))
    requires Leads(Step(s, Create(t)), later, u)
    requires u.dispatched != [] && u.dispatched[|u.dispatched| - 1] == t
    ensures |u.dispatched| == |s.dispatched| + |s.queue| + 1
    ensures s.current != Some(idle)
  {
    RunInv(s, idle, events);
    CreateKeeps(s, t);
    RunKeeps(Step(s, Create(t)), later, u);
    var p, n := |s.created|, Begun(u);
    assert u.created[p] == t;
    assert u.dispatched[n - 1] == u.created[n - 1];
    SameIndex(u.created, p, n - 1);
  }

  // ---- Threads that stay ready ----------------------------------------------------------------

  /** `k` calls of `thread_reschedule`, by whichever thread runs. */
  function Reschedules(s: Sched, k: nat): (u: Sched)
    requires s.count == |s.queue| && s.current.Some?
    ensures u.count == |u.queue| && u.current.Some?
  {
    if k == 0 then s else Reschedule(Reschedules(s, k - 1))
  }

  /** A ready thread that calls it goes to the end of the queue, whose first thread runs. */
  lemma {:induction false} Turn(s: Sched)
    requires s.count == |s.queue| > 0 && s.current.Some?
    requires s.current.value in s.ready && s.current.value != s.idle
    ensures var u := Reschedule(s);
      && u.current == Some(s.queue[0]) && u.queue == s.queue[1..] + [s.current.value]
      && u.dispatched == s.dispatched + [s.queue[0]] && u.ready == s.ready && u.idle == s.idle
  {
  }

  lemma {:induction false} Rotated(ring: seq<Tid>, k: nat)
    requires 0 < k < |ring|
    ensures var q := ring[k..] + ring[..k - 1];
      q[0] == ring[k] && q[1..] + [ring[k - 1]] == ring[k + 1..] + ring[..k]
    ensures ring[..k][1..] + [ring[k]] == ring[1..k] + [ring[k]] == ring[1..k + 1]
  {
    var rest, last := ring[k + 1..], ring[k - 1];
    assert ring[k..] + ring[..k - 1] == [ring[k]] + (rest + ring[..k - 1]);
    assert ring[..k] == ring[..k - 1] + [last];
    assert rest + ring[..k - 1] + [last] == rest + (ring[..k - 1] + [last]);
    assert ring[..k][1..] == ring[1..k];
  }

  /** Threads that stay ready take turns: everyone moves up by one at each call. */
  lemma {:induction false} TakeTurns(s: Sched, ring: seq<Tid>, k: nat)
    requires s.count == |s.queue| && s.current.Some? && ring == [s.current.value] + s.queue && k < |ring|
    requires forall t :: t in ring ==> t in s.ready && t != s.idle
    ensures var u := Reschedules(s, k);
      && u.current == Some(ring[k]) && u.queue == ring[k + 1..] + ring[..k]
      && u.dispatched == s.dispatched + ring[1..k + 1] && u.ready == s.ready && u.idle == s.idle
  {
    hide Reschedule;
    if k == 0 {
      assert ring[1..] + ring[..0] == s.queue && ring[1..1] == [];
    } else {
      TakeTurns(s, ring, k - 1);
      assert ring[k - 1] in ring;
      Turn(Reschedules(s, k - 1));
      Rotated(ring, k);
      assert s.dispatched + ring[1..k] + [ring[k]] == s.dispatched + (ring[1..k] + [ring[k]]);
    }
  }

  /** After one call by each of them everyone has run once, in queue order, and the queue is as
      it was. */
  lemma {:induction false} RoundRobin(s: Sched)
    requires s.count == |s.queue| > 0 && s.current.Some?
    requires forall t :: t in s.queue ==> t in s.ready && t != s.idle
    requires s.current.value in s.ready && s.current.value != s.idle
    ensures var u := Reschedules(s, |s.queue| + 1);
      u.current == s.current && u.queue == s.queue && u.dispatched == s.dispatched + s.queue + [s.current.value]
  {
    hide Reschedule, Reschedules;
    var ring, k := [s.current.value] + s.queue, |s.queue|;
    TakeTurns(s, ring, k);
    Closing(s.current.value, s.queue);
    assert ring[k] in s.queue;
    Turn(Reschedules(s, k));
    OneMore(s, k);
    assert s.dispatched + s.queue + [s.current.value] == s.dispatched + (s.queue + [s.current.value]);
  }

  lemma {:induction false} OneMore(s: Sched, k: nat)
    requires s.count == |s.queue| && s.current.Some?
    ensures Reschedules(s, k + 1) == Reschedule(Reschedules(s, k))
  {
  }

  lemma {:induction false} Closing(c: Tid, q: seq<Tid>)
    requires q != []
    ensures var ring, k := [c] + q, |q|;
      && ring[k] == q[k - 1] && ring[1..k + 1] == q && ring[k + 1..] + ring[..k] == ring[..k]
      && ring[..k][0] == c && ring[..k][1..] + [ring[k]] == q
  {
  }

  /** Whoever calls it, the idle thread and threads that are not ready are never queued. */
  lemma {:induction false} OnlyReadyQueued(s: Sched, t: Tid)
    requires s.count == |s.queue| && s.current.Some? && t !in s.queue && (t == s.idle || t !in s.ready)
    ensures t !in Reschedule(s).queue
  {
    if s.queue != [] {
      assert forall u :: u in s.queue[1..] ==> u in s.queue;
    }
  }

  /** With an empty queue a ready thread yields to the idle thread and waits for it. */
  lemma {:induction false} YieldsToIdle(s: Sched)
    requires s.count == |s.queue| == 0 && s.current.Some?
    requires s.current.value in s.ready && s.current.value != s.idle
    ensures Reschedule(s).current == Some(s.idle) && Reschedule(s).queue == [s.current.value]
  {
  }
}
