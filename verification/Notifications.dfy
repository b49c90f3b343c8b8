/** The main loop and the worker threads around the list of finished jobs, one step
    at a time.

    The signal is blocked except inside `pselect`, so a `pthread_kill` outside it
    leaves the signal pending; several of them coalesce into one. */
module Notifications {
  import opened Wrappers
  import T = SelectorTable
  import D = Dispatch

  /** A notification; `id` tells apart two notifications for the same descriptor. */
  datatype Job = Job(id: nat, fd: int)

  /** Where a worker is inside `selector_notify_block`. */
  datatype Worker =
    | WantsLock(fd: int)
    | HoldsLock(fd: int)
    | Enqueued          // pushed its job, still holds the mutex
    | OwesSignal        // released the mutex, has not called pthread_kill yet

  datatype Main =
    | Outside           // between two rounds, signal blocked
    | Waiting           // inside pselect, signal unblocked
    | Dispatching       // pselect returned a count
    | WantsDrain        // about to take the mutex
    | Draining(next: nat)
    | Stopped           // pselect failed, the loop was left

  datatype Owner = Nobody | ByMain | ByWorker(worker: nat)

  datatype State = State(
    main: Main,
    workers: map<nat, Worker>,   // threads currently inside selector_notify_block
    mutex: Owner,
    jobs: seq<Job>,              // the linked list, newest first
    pending: bool,               // the signal is pending
    registered: set<int>,
    notified: seq<Job>,          // every job ever pushed, in order
    delivered: seq<Job>,
    dropped: seq<Job>)

  datatype Event =
    | Start(worker: nat, fd: int)
    | TakeLock(worker: nat)
    | Push(worker: nat)
    | Release(worker: nat)
    | Kill(worker: nat)
    | EnterPselect
    | WokenBySignal
    | WokenByOther
    | WokenByReady
    | PselectFails
    | Dispatch(registered: set<int>)        // the table after all callbacks of the round
    | MainLock
    | SettleOne(registered: set<int>)       // the table after the block callback, if any
    | FinishDrain

  predicate Enabled(s: State, e: Event) {
    match e
    case Start(w, _) => w !in s.workers
    case TakeLock(w) => w in s.workers && s.workers[w].WantsLock? && s.mutex == Nobody
    case Push(w) => w in s.workers && s.workers[w].HoldsLock?
    case Release(w) => w in s.workers && s.workers[w].Enqueued?
    case Kill(w) => w in s.workers && s.workers[w].OwesSignal?
    case EnterPselect => s.main.Outside?
    case WokenBySignal => s.main.Waiting? && s.pending
    case WokenByOther => s.main.Waiting?
    case WokenByReady => s.main.Waiting?
    case PselectFails => s.main.Waiting?
    case Dispatch(_) => s.main.Dispatching?
    case MainLock => s.main.WantsDrain? && s.mutex == Nobody
    case SettleOne(_) => s.main.Draining? && s.main.next < |s.jobs|
    case FinishDrain => s.main.Draining? && s.main.next >= |s.jobs|
  }

  function Step(s: State, e: Event): State
    requires Enabled(s, e)
  {
    match e
    case Start(w, fd) => s.(workers := s.workers[w := WantsLock(fd)])
    case TakeLock(w) => s.(workers := s.workers[w := HoldsLock(s.workers[w].fd)], mutex := ByWorker(w))
    case Push(w) =>
      var job := Job(|s.notified|, s.workers[w].fd);
      s.(workers := s.workers[w := Enqueued], jobs := [job] + s.jobs, notified := s.notified + [job])
    case Release(w) => s.(workers := s.workers[w := OwesSignal], mutex := Nobody)
    case Kill(w) => s.(workers := s.workers - {w}, pending := true)
    case EnterPselect => s.(main := Waiting)
    case WokenBySignal => s.(main := WantsDrain, pending := false)
    case WokenByOther => s.(main := WantsDrain)
    case WokenByReady => s.(main := Dispatching)
    case PselectFails => s.(main := Stopped)
    case Dispatch(registered) => s.(main := WantsDrain, registered := registered)
    case MainLock => s.(main := Draining(0), mutex := ByMain)
    case SettleOne(registered) =>
      var job := s.jobs[s.main.next];
      if job.fd in s.registered then
        s.(main := Draining(s.main.next + 1), delivered := s.delivered + [job], registered := registered)
      else
        s.(main := Draining(s.main.next + 1), dropped := s.dropped + [job])
    case FinishDrain => s.(main := Outside, jobs := [], mutex := Nobody)
  }

  function Initial(registered: set<int>): State {
    State(Outside, map[], Nobody, [], false, registered, [], [], [])
  }

  /** The states of a run: each event is enabled where it happens. */
  ghost predicate Run(s: State, events: seq<Event>, t: State)
    decreases |events|
  {
    if events == [] then s == t
    else Enabled(s, events[0]) && Run(Step(s, events[0]), events[1..], t)
  }

  /** Jobs on the list that the current drain has not settled yet. */
  function Unsettled(s: State): seq<Job> {
    if s.main.Draining? && s.main.next <= |s.jobs| then s.jobs[s.main.next..] else s.jobs
  }

  // ----- the invariant

  /** The mutex is held exactly by the thread that is inside its critical section. */
  ghost predicate MutexAgrees(s: State) {
    && (s.mutex == ByMain <==> s.main.Draining?)
    && (s.mutex.ByWorker? ==> var w := s.mutex.worker; w in s.workers && (s.workers[w].HoldsLock? || s.workers[w].Enqueued?))
    && (forall w :: w in s.workers && (s.workers[w].HoldsLock? || s.workers[w].Enqueued?) ==> s.mutex == ByWorker(w))
    && (s.main.Draining? ==> s.main.next <= |s.jobs|)
  }

  /** The main thread has left `pselect` and will drain before it waits again. */
  predicate WillDrain(s: State) {
    s.main.Dispatching? || s.main.WantsDrain? || s.main.Draining?
  }

  ghost predicate SignalOwed(s: State) {
    exists w :: w in s.workers && (s.workers[w].Enqueued? || s.workers[w].OwesSignal?)
  }

  /** Whenever a job is unsettled, something is bound to wake the main loop. */
  ghost predicate NoLostWakeup(s: State) {
    Unsettled(s) != [] ==> s.pending || SignalOwed(s) || WillDrain(s) || s.main.Stopped?
  }

  /** Jobs are numbered in the order they were pushed. */
  ghost predicate Numbered(s: State) {
    forall i :: 0 <= i < |s.notified| ==> s.notified[i].id == i
  }

  /** Every pushed job is delivered, dropped or still unsettled, and just one of these. */
  ghost predicate Accounted(s: State) {
    multiset(s.notified) == multiset(s.delivered) + multiset(s.dropped) + multiset(Unsettled(s))
  }

  ghost predicate Inv(s: State) {
    MutexAgrees(s) && NoLostWakeup(s) && Numbered(s) && Accounted(s)
  }

  lemma MutexStep(s: State, e: Event)
    requires Enabled(s, e) && MutexAgrees(s)
    ensures MutexAgrees(Step(s, e))
  {
  }

  lemma WakeupStep(s: State, e: Event)
    requires Enabled(s, e) && MutexAgrees(s) && NoLostWakeup(s)
    ensures NoLostWakeup(Step(s, e))
  {
    var t := Step(s, e);
    if Unsettled(t) != [] {
      if e.Push? {
        assert e.worker in t.workers && t.workers[e.worker].Enqueued?;
      } else if SignalOwed(s) {
        var w :| w in s.workers && (s.workers[w].Enqueued? || s.workers[w].OwesSignal?);
        if !e.Kill? || e.worker != w {
          assert w in t.workers;
        }
      }
    }
  }

  lemma AccountPush(s: State, w: nat)
    requires Enabled(s, Push(w)) && MutexAgrees(s) && Accounted(s)
    ensures Accounted(Step(s, Push(w)))
  {
    var t := Step(s, Push(w));
    assert Unsettled(t) == [t.jobs[0]] + Unsettled(s);
    assert t.notified == s.notified + [t.jobs[0]];
  }

  lemma AccountSettle(s: State, registered: set<int>)
    requires Enabled(s, SettleOne(registered)) && Accounted(s)
    ensures Accounted(Step(s, SettleOne(registered)))
  {
    var t := Step(s, SettleOne(registered));
    var job := s.jobs[s.main.next];
    assert Unsettled(s) == [job] + Unsettled(t);
    SettleBags(s.notified, s.delivered, s.dropped, job, Unsettled(t));
    hide Unsettled;
  }

  lemma SettleBags(all: seq<Job>, delivered: seq<Job>, dropped: seq<Job>, job: Job, rest: seq<Job>)
    requires multiset(all) == multiset(delivered) + multiset(dropped) + multiset([job] + rest)
    ensures multiset(all) == multiset(delivered + [job]) + multiset(dropped) + multiset(rest)
    ensures multiset(all) == multiset(delivered) + multiset(dropped + [job]) + multiset(rest)
  {
    BagOfConcat([job], rest);
    BagOfConcat(delivered, [job]);
    BagOfConcat(dropped, [job]);
  }

  lemma BagOfConcat(a: seq<Job>, b: seq<Job>)
    ensures multiset(a + b) == multiset(a) + multiset(b)
  {
  }

  lemma NumberedStep(s: State, e: Event)
    requires Enabled(s, e) && Numbered(s)
    ensures Numbered(Step(s, e))
  {
  }

  lemma AccountStep(s: State, e: Event)
    requires Enabled(s, e) && MutexAgrees(s) && Accounted(s)
    ensures Accounted(Step(s, e))
  {
    if e.Push? {
      AccountPush(s, e.worker);
    } else if e.SettleOne? {
      AccountSettle(s, e.registered);
    } else {
      assert Unsettled(Step(s, e)) == Unsettled(s);
    }
  }

  lemma {:induction false} InvHolds(s: State, events: seq<Event>, t: State)
    requires Inv(s) && Run(s, events, t)
    ensures Inv(t)
    decreases |events|
  {
    if events != [] {
      hide MutexAgrees, NoLostWakeup, Numbered, Accounted, Step;
      MutexStep(s, events[0]);
      WakeupStep(s, events[0]);
      NumberedStep(s, events[0]);
      AccountStep(s, events[0]);
      InvHolds(Step(s, events[0]), events[1..], t);
    }
  }

  // ----- whole runs

  /** No wakeup is lost: in every reachable state, an unsettled job means a pending
      signal, a worker that will still send one, or a main loop that has left
      `pselect` and not drained yet. */
  lemma NoWakeupIsLost(registered: set<int>, events: seq<Event>, t: State)
    requires Run(Initial(registered), events, t)
    requires Unsettled(t) != [] && !t.main.Stopped?
    ensures t.pending || SignalOwed(t) || WillDrain(t)
  {
    InvHolds(Initial(registered), events, t);
  }

  /** The main loop never sleeps on a job: once every worker has finished, a waiting
      main loop with an unsettled job can be woken by the signal at once. */
  lemma NeverSleepsOnAJob(registered: set<int>, events: seq<Event>, t: State)
    requires Run(Initial(registered), events, t)
    requires t.main.Waiting? && t.jobs != [] && t.workers == map[]
    ensures Enabled(t, WokenBySignal)
  {
    NoWakeupIsLost(registered, events, t);
  }

  /** Pushed jobs are exactly the delivered, dropped and unsettled ones, and no job
      is settled twice or settled and kept. */
  lemma EachJobOnce(registered: set<int>, events: seq<Event>, t: State)
    requires Run(Initial(registered), events, t)
    ensures multiset(t.notified) == multiset(t.delivered) + multiset(t.dropped) + multiset(Unsettled(t))
    ensures forall job :: multiset(t.delivered)[job] + multiset(t.dropped)[job] + multiset(Unsettled(t))[job] <= 1
  {
    InvHolds(Initial(registered), events, t);
    forall job
      ensures multiset(t.delivered)[job] + multiset(t.dropped)[job] + multiset(Unsettled(t))[job] <= 1
    {
      NumberedOnce(t.notified, job);
      assert multiset(t.notified)[job] <= 1;
    }
  }

  lemma {:induction false} NumberedOnce(jobs: seq<Job>, job: Job)
    requires forall i :: 0 <= i < |jobs| ==> jobs[i].id == i
    ensures multiset(jobs)[job] <= 1
    ensures job.id >= |jobs| ==> multiset(jobs)[job] == 0
  {
    if jobs != [] {
      var n := |jobs| - 1;
      assert jobs == jobs[..n] + [jobs[n]];
      NumberedOnce(jobs[..n], job);
    }
  }

  /** A finished drain leaves nothing behind: whatever was pushed before has been
      delivered or dropped. */
  lemma DrainClearsBacklog(registered: set<int>, events: seq<Event>, t: State)
    requires Run(Initial(registered), events, t) && Enabled(t, FinishDrain)
    ensures multiset(t.notified) == multiset(t.delivered) + multiset(t.dropped)
  {
    InvHolds(Initial(registered), events, t);
    assert Unsettled(t) == [];
  }

  // ----- rounds, wakeups and the order of the list

  function Count(events: seq<Event>, what: Event -> bool): nat {
    if events == [] then 0 else (if what(events[0]) then 1 else 0) + Count(events[1..], what)
  }

  const IsKill: Event -> bool := (e: Event) => e.Kill?
  const IsSignalled: Event -> bool := (e: Event) => e.WokenBySignal?
  const IsEnter: Event -> bool := (e: Event) => e.EnterPselect?
  const IsFinish: Event -> bool := (e: Event) => e.FinishDrain?

  /** Signals coalesce and are consumed: the signal never wakes the main loop more often than
      workers sent it. */
  lemma {:induction false} SignalsBoundWakeups(s: State, events: seq<Event>, t: State)
    requires Run(s, events, t)
    ensures Count(events, IsSignalled) + (if t.pending then 1 else 0) <=
            Count(events, IsKill) + (if s.pending then 1 else 0)
    decreases |events|
  {
    if events != [] { SignalsBoundWakeups(Step(s, events[0]), events[1..], t); }
  }

  /** Every round drains: however it was woken, the main loop finishes a drain before it waits
      again. */
  lemma {:induction false} EveryRoundDrains(s: State, events: seq<Event>, t: State)
    requires Run(s, events, t)
    ensures Count(events, IsEnter) + (if s.main.Outside? then 0 else 1) ==
            Count(events, IsFinish) + (if t.main.Outside? then 0 else 1)
    decreases |events|
  {
    if events != [] { EveryRoundDrains(Step(s, events[0]), events[1..], t); }
  }

  ghost predicate Descending(s: State) {
    && (forall i, j :: 0 <= i < j < |s.jobs| ==> s.jobs[i].id > s.jobs[j].id)
    && (forall i :: 0 <= i < |s.jobs| ==> s.jobs[i].id < |s.notified|)
  }

  lemma DescendingStep(s: State, e: Event)
    requires Descending(s) && Enabled(s, e)
    ensures Descending(Step(s, e))
  {
    if e.Push? {
      var t := Step(s, e);
      assert forall i :: 0 < i < |t.jobs| ==> t.jobs[i] == s.jobs[i - 1];
    }
  }

  /** The list holds the jobs newest first, and a drain goes through it in that order. */
  lemma {:induction false} NewestFirst(s: State, events: seq<Event>, t: State)
    requires Descending(s) && Run(s, events, t)
    ensures Descending(t)
    decreases |events|
  {
    if events != [] {
      DescendingStep(s, events[0]);
      hide Descending, Step, Enabled;
      NewestFirst(Step(s, events[0]), events[1..], t);
    }
  }

  // ----- the main loop on its own settles everything

  /** The steps a waiting main loop takes, on its own, once the signal arrives. */
  function Round(s: State): seq<Event> {
    [WokenBySignal, MainLock] + seq(|s.jobs|, _ => SettleOne(s.registered)) + [FinishDrain]
  }

  lemma {:induction false} RunConcat(s: State, a: seq<Event>, m: State, b: seq<Event>, t: State)
    requires Run(s, a, m) && Run(m, b, t)
    ensures Run(s, a + b, t)
    decreases |a|
  {
    if a == [] {
      assert a + b == b;
    } else {
      assert (a + b)[0] == a[0] && (a + b)[1..] == a[1..] + b;
      RunConcat(Step(s, a[0]), a[1..], m, b, t);
    }
  }

  lemma {:induction false} SettleAll(s: State) returns (t: State)
    requires s.main.Draining? && s.main.next <= |s.jobs| && s.mutex == ByMain
    ensures Run(s, seq(|s.jobs| - s.main.next, _ => SettleOne(s.registered)), t)
    ensures t == s.(main := Draining(|s.jobs|), delivered := t.delivered, dropped := t.dropped)
    ensures s.delivered <= t.delivered && s.dropped <= t.dropped
    ensures forall k :: s.main.next <= k < |s.jobs| ==>
              s.jobs[k] in if s.jobs[k].fd in s.registered then t.delivered else t.dropped
    decreases |s.jobs| - s.main.next
  {
    var rounds := seq(|s.jobs| - s.main.next, _ => SettleOne(s.registered));
    if s.main.next == |s.jobs| {
      t := s;
    } else {
      var m := Step(s, SettleOne(s.registered));
      var job := s.jobs[s.main.next];
      assert job in if job.fd in s.registered then m.delivered else m.dropped;
      assert s.delivered <= m.delivered && s.dropped <= m.dropped;
      t := SettleAll(m);
      assert rounds[1..] == seq(|m.jobs| - m.main.next, _ => SettleOne(m.registered));
      assert Run(s, rounds, t);
      hide Run, Step;
    }
  }

  /** From any reachable state in which the main loop waits and all workers are done,
      the signal, one drain and no other help settle every queued job: delivered if
      its descriptor is registered, dropped if not. */
  lemma RoundSettlesAll(registered: set<int>, events: seq<Event>, s: State) returns (t: State)
    requires Run(Initial(registered), events, s)
    requires s.main.Waiting? && s.jobs != [] && s.workers == map[]
    ensures Run(s, Round(s), t) && t.main.Outside? && t.jobs == [] && t.mutex == Nobody
    ensures forall job :: job in s.jobs ==> job in if job.fd in s.registered then t.delivered else t.dropped
  {
    NeverSleepsOnAJob(registered, events, s);
    InvHolds(Initial(registered), events, s);
    var a := Step(s, WokenBySignal);
    var b := Step(a, MainLock);
    var c := SettleAll(b);
    t := Step(c, FinishDrain);
    var middle := seq(|s.jobs|, _ => SettleOne(s.registered));
    assert middle == seq(|b.jobs| - b.main.next, _ => SettleOne(b.registered));
    assert Run(s, [WokenBySignal, MainLock], b) by {
      assert [WokenBySignal, MainLock][1..] == [MainLock];
      assert [MainLock][1..] == [];
      assert Run(a, [MainLock], b);
    }
    assert Run(c, [FinishDrain], t) by { assert [FinishDrain][1..] == []; }
    RunConcat(s, [WokenBySignal, MainLock], b, middle, c);
    RunConcat(s, [WokenBySignal, MainLock] + middle, c, [FinishDrain], t);
    forall job | job in s.jobs
      ensures job in if job.fd in s.registered then t.delivered else t.dropped
    {
      var k :| 0 <= k < |s.jobs| && s.jobs[k] == job;
      assert b.jobs[k] == job;
    }
  }

  // ----- the drain method and the drain steps agree

  function Fds(jobs: seq<Job>): seq<int> {
    if jobs == [] then [] else [jobs[0].fd] + Fds(jobs[1..])
  }

  lemma {:induction false} FdsConcat(a: seq<Job>, b: seq<Job>)
    ensures Fds(a + b) == Fds(a) + Fds(b)
  {
    if a == [] {
      assert a + b == b;
    } else {
      assert (a + b)[1..] == a[1..] + b;
      FdsConcat(a[1..], b);
    }
  }

  /** The descriptors whose block callback a log enters, in order. */
  function Deliveries(log: D.Log): seq<int> {
    if log == [] then [] else Delivery(log[0]) + Deliveries(log[1..])
  }

  function Delivery(a: D.Action): seq<int> {
    if a.Called? && a.kind.OnBlock? then [a.fd] else []
  }

  function Drops(log: D.Log): seq<int> {
    if log == [] then [] else Drop(log[0]) + Drops(log[1..])
  }

  function Drop(a: D.Action): seq<int> {
    if a.Dropped? then [a.fd] else []
  }

  lemma {:induction false} DeliveriesConcat(a: D.Log, b: D.Log)
    ensures Deliveries(a + b) == Deliveries(a) + Deliveries(b)
    ensures Drops(a + b) == Drops(a) + Drops(b)
  {
    if a == [] {
      assert a + b == b;
    } else {
      assert (a + b)[0] == a[0] && (a + b)[1..] == a[1..] + b;
      DeliveriesConcat(a[1..], b);
      Reassociate(Delivery(a[0]), Deliveries(a[1..]), Deliveries(b));
      Reassociate(Drop(a[0]), Drops(a[1..]), Drops(b));
    }
  }

  lemma {:induction false} CallsDeliverNothing(log: D.Log)
    requires forall p :: 0 <= p < |log| ==> D.ByCallback(log[p])
    ensures Deliveries(log) == [] && Drops(log) == []
  {
    if log != [] { CallsDeliverNothing(log[1..]); }
  }

  lemma SettleDelivers(t: T.Table, fd: int, log: D.Log, callbacks: D.Callbacks)
    requires !D.Halted(D.Settle(t, fd, log, callbacks))
    ensures Deliveries(D.Settle(t, fd, log, callbacks)) == if fd in t then [fd] else []
    ensures Drops(D.Settle(t, fd, log, callbacks)) == if fd in t then [] else [fd]
    ensures fd !in t ==> D.Replay(t, D.Settle(t, fd, log, callbacks)) == t
  {
    var first := D.Settle(t, fd, log, callbacks);
    if fd in t {
      D.CallBackShape(D.OnBlock, fd, t[fd].data, t, log, callbacks);
      CallsDeliverNothing(first[1..]);
    } else {
      assert first[1..] == [];
    }
  }

  lemma PeelDrain(t: T.Table, fds: seq<int>, log: D.Log, callbacks: D.Callbacks)
    requires fds != [] && !D.Halted(D.Drain(t, fds, log, callbacks))
    ensures var first := D.Settle(t, fds[0], log, callbacks);
            var rest := D.Drain(D.Replay(t, first), fds[1..], log + first, callbacks);
            var drain := D.Drain(t, fds, log, callbacks);
            && !D.Halted(first) && !D.Halted(rest)
            && Deliveries(drain) == Deliveries(first) + Deliveries(rest)
            && Drops(drain) == Drops(first) + Drops(rest)
            && D.Replay(t, drain) == D.Replay(D.Replay(t, first), rest)
  {
    var first := D.Settle(t, fds[0], log, callbacks);
    var rest := D.Drain(D.Replay(t, first), fds[1..], log + first, callbacks);
    assert !D.Halted(first);
    D.HaltedConcat(first, rest);
    DeliveriesConcat(first, rest);
    D.ReplayConcat(t, first, rest);
  }

  lemma StepDelivers(s: State, t: T.Table, log: D.Log, callbacks: D.Callbacks)
    requires s.main.Draining? && s.main.next < |s.jobs| && s.registered == t.Keys
    requires !D.Halted(D.Settle(t, s.jobs[s.main.next].fd, log, callbacks))
    ensures var first := D.Settle(t, s.jobs[s.main.next].fd, log, callbacks);
            var m := Step(s, SettleOne(D.Replay(t, first).Keys));
            && m.registered == D.Replay(t, first).Keys
            && Fds(m.delivered) == Fds(s.delivered) + Deliveries(first)
            && Fds(m.dropped) == Fds(s.dropped) + Drops(first)
  {
    var job := s.jobs[s.main.next];
    SettleDelivers(t, job.fd, log, callbacks);
    FdsOne(s.delivered, job);
    FdsOne(s.dropped, job);
    hide Fds, Deliveries, Drops, D.Settle, D.Replay;
  }

  lemma FdsOne(jobs: seq<Job>, job: Job)
    ensures Fds(jobs + [job]) == Fds(jobs) + [job.fd]
    ensures Fds(jobs) + [] == Fds(jobs)
  {
    FdsConcat(jobs, [job]);
    assert [job][1..] == [];
    assert Fds([job]) == [job.fd] + Fds([job][1..]);
  }

  /** Going from `s` to `u` delivered and dropped just what `log` says. */
  ghost predicate SettledAs(s: State, u: State, log: D.Log) {
    Fds(u.delivered) == Fds(s.delivered) + Deliveries(log) && Fds(u.dropped) == Fds(s.dropped) + Drops(log)
  }

  lemma SettledCompose(s: State, m: State, u: State, a: D.Log, b: D.Log, c: D.Log)
    requires SettledAs(s, m, a) && SettledAs(m, u, b)
    requires Deliveries(c) == Deliveries(a) + Deliveries(b) && Drops(c) == Drops(a) + Drops(b)
    ensures SettledAs(s, u, c)
  {
    Reassociate(Fds(s.delivered), Deliveries(a), Deliveries(b));
    Reassociate(Fds(s.dropped), Drops(a), Drops(b));
  }

  /** What the drain of the selector logs is a run of drain steps: the same jobs are
      delivered and dropped, in the same order, and the table ends the same. */
  lemma {:induction false} DrainIsARun(s: State, t: T.Table, log: D.Log, callbacks: D.Callbacks) returns (events: seq<Event>, u: State)
    requires s.main.Draining? && s.main.next <= |s.jobs| && s.registered == t.Keys
    requires !D.Halted(D.Drain(t, Fds(s.jobs[s.main.next..]), log, callbacks))
    ensures Run(s, events, u) && u.main == Draining(|s.jobs|) && u.jobs == s.jobs && u.mutex == s.mutex
    ensures var drain := D.Drain(t, Fds(s.jobs[s.main.next..]), log, callbacks);
            SettledAs(s, u, drain) && u.registered == D.Replay(t, drain).Keys
    decreases |s.jobs| - s.main.next
  {
    var left := s.jobs[s.main.next..];
    if left == [] {
      events, u := [], s;
    } else {
      var fd := left[0].fd;
      assert Fds(left) == [fd] + Fds(left[1..]);
      assert Fds(left)[1..] == Fds(left[1..]);
      PeelDrain(t, Fds(left), log, callbacks);
      StepDelivers(s, t, log, callbacks);
      var first := D.Settle(t, fd, log, callbacks);
      var e := SettleOne(D.Replay(t, first).Keys);
      var m := Step(s, e);
      assert left[1..] == m.jobs[m.main.next..];
      var later;
      later, u := DrainIsARun(m, D.Replay(t, first), log + first, callbacks);
      events := [e] + later;
      assert events[0] == e && events[1..] == later;
      var rest := D.Drain(D.Replay(t, first), Fds(left)[1..], log + first, callbacks);
      SettledCompose(s, m, u, first, rest, D.Drain(t, Fds(left), log, callbacks));
    }
  }
}
