/**
 The bounded thread pool as an interleaving of atomic sections.  One section is what a thread does
 between taking the queue lock and releasing it, by unlocking or by waiting on a condition variable.
 Each accepted item runs an asynchronous operation that owns its context.
 */
module ThreadPool {
  import opened Base

  type Thread = nat
  /** A submit call and its work item share one name. */
  type Item = nat

  datatype Workers = Workers(
    ready: set<Thread>,               // about to take the lock
    parked: set<Thread>,              // waiting on queue_not_empty
    woken: set<Thread>,               // signalled, about to retake the lock
    running: map<Thread, Item>,       // executing outside the lock
    exited: set<Thread>)

  datatype Calls = Calls(
    entering: set<Item>,              // about to take the lock
    blocked: set<Item>,               // waiting on queue_not_full
    released: set<Item>,              // signalled, about to retake the lock
    rejected: set<Item>,
    accepted: seq<Item>)

  datatype Log = Log(
    started: seq<Item>,
    finished: seq<Item>,
    callbacks: seq<Item>,             // completion callbacks invoked
    freed: seq<Item>)                 // contexts freed

  datatype Pool = Pool(threads: set<Thread>, capacity: nat, queue: seq<Item>, shutdown: bool,
                       w: Workers, c: Calls, log: Log)

  /** A pool right after its workers were created. */
  ghost predicate Init(p: Pool)
  {
    && p.threads != {} && p.capacity > 0 && p.queue == [] && !p.shutdown
    && p.w == Workers(p.threads, {}, {}, map[], {})
    && p.c == Calls({}, {}, {}, {}, [])
    && p.log == Log([], [], [], [])
  }

  predicate Known(c: Calls, i: Item) {
    i in c.entering || i in c.blocked || i in c.released || i in c.rejected || i in c.accepted
  }

  /** pthread_cond_signal unblocks at least one waiter, if there is one. */
  predicate Signalled<T(==)>(waiting: set<T>, woke: set<T>) {
    woke <= waiting && (waiting != {} ==> woke != {})
  }

  datatype Step =
    | Call(item: Item)
    | Submit(item: Item, wakeW: set<Thread>)
    | Work(worker: Thread, wakeS: set<Item>)
    | Finish(worker: Thread)
    | Destroy
    | SpuriousWorker(worker: Thread)
    | SpuriousSubmit(item: Item)

  predicate Enabled(p: Pool, s: Step)
  {
    match s
    case Call(i) => !Known(p.c, i)
    case Submit(i, u) => (i in p.c.entering || i in p.c.released) && Signalled(p.w.parked, u)
    case Work(t, u) => (t in p.w.ready || t in p.w.woken) && Signalled(p.c.blocked, u)
    case Finish(t) => t in p.w.running
    case Destroy => true
    case SpuriousWorker(t) => t in p.w.parked
    case SpuriousSubmit(i) => i in p.c.blocked
  }

  function Wake(w: Workers, u: set<Thread>): Workers { w.(parked := w.parked - u, woken := w.woken + u) }
  function Release(c: Calls, u: set<Item>): Calls { c.(blocked := c.blocked - u, released := c.released + u) }
  function Leave(c: Calls, i: Item): Calls { c.(entering := c.entering - {i}, released := c.released - {i}) }
  function Rise(w: Workers, t: Thread): Workers { w.(ready := w.ready - {t}, woken := w.woken - {t}) }

  /** thread_pool_submit under the lock; a released call re-tests the same conditions. */
  function SubmitStep(p: Pool, i: Item, u: set<Thread>): Pool
  {
    var c := Leave(p.c, i);
    if p.shutdown then
      p.(c := c.(rejected := c.rejected + {i}), log := p.log.(freed := p.log.freed + [i]))
    else if |p.queue| >= p.capacity then
      p.(c := c.(blocked := c.blocked + {i}))
    else
      p.(queue := p.queue + [i], c := c.(accepted := c.accepted + [i]), w := Wake(p.w, u))
  }

  /** thread_pool_worker under the lock. */
  function WorkStep(p: Pool, t: Thread, u: set<Item>): Pool
  {
    var w := Rise(p.w, t);
    if p.queue == [] && !p.shutdown then
      p.(w := w.(parked := w.parked + {t}))
    else if p.queue == [] then
      p.(w := w.(exited := w.exited + {t}))
    else
      p.(queue := p.queue[1..], w := w.(running := w.running[t := p.queue[0]]), c := Release(p.c, u),
         log := p.log.(started := p.log.started + [p.queue[0]]))
  }

  /** The item's function: the operation, its callback if there is one, and the context is freed. */
  function FinishLog(log: Log, i: Item, hasCallback: Item -> bool): Log {
    log.(finished := log.finished + [i], freed := log.freed + [i],
         callbacks := if hasCallback(i) then log.callbacks + [i] else log.callbacks)
  }

  function FinishStep(p: Pool, t: Thread, hasCallback: Item -> bool): Pool
    requires t in p.w.running
  {
    p.(w := p.w.(running := p.w.running - {t}, ready := p.w.ready + {t}),
       log := FinishLog(p.log, p.w.running[t], hasCallback))
  }

  /** thread_pool_destroy up to the joins. */
  function DestroyStep(p: Pool): Pool {
    p.(shutdown := true, w := Wake(p.w, p.w.parked), c := Release(p.c, p.c.blocked))
  }

  function Apply(p: Pool, s: Step, hasCallback: Item -> bool): Pool
    requires Enabled(p, s)
  {
    match s
    case Call(i) => p.(c := p.c.(entering := p.c.entering + {i}))
    case Submit(i, u) => SubmitStep(p, i, u)
    case Work(t, u) => WorkStep(p, t, u)
    case Finish(t) => FinishStep(p, t, hasCallback)
    case Destroy => DestroyStep(p)
    case SpuriousWorker(t) => p.(w := Wake(p.w, {t}))
    case SpuriousSubmit(i) => p.(c := Release(p.c, {i}))
  }

  /* ---------- invariant ---------- */

  /** Every worker is in exactly one phase. */
  ghost predicate WorkersOk(threads: set<Thread>, w: Workers)
  {
    && threads != {}
    && w.ready !! w.parked !! w.woken !! w.running.Keys !! w.exited
    && threads == w.ready + w.parked + w.woken + w.running.Keys + w.exited
  }

  /** Workers leave only after shutdown, when nothing is queued. */
  ghost predicate ExitOk(p: Pool)
  {
    p.w.exited != {} ==> p.shutdown && p.queue == []
  }

  /** No wake-up is lost. */
  ghost predicate WakeOk(p: Pool)
  {
    && NoLostWork(|p.queue|, p.w.parked, p.w.woken)
    && NoLostRoom(|p.queue|, p.capacity, p.c.blocked, p.c.released)
    && (p.shutdown ==> p.w.parked == {} && p.c.blocked == {})
  }
  ghost predicate NoLostWork(n: nat, parked: set<Thread>, woken: set<Thread>) {
    parked != {} ==> n <= |woken|
  }
  ghost predicate NoLostRoom(n: nat, capacity: nat, blocked: set<Item>, released: set<Item>) {
    blocked != {} ==> n + |released| >= capacity
  }

  /** Every submit call is in exactly one phase. */
  ghost predicate CallsOk(c: Calls)
  {
    && c.entering !! c.blocked !! c.released !! c.rejected !! SetOf(c.accepted)
    && NoDup(c.accepted)
  }

  /** Items start in the order in which they were accepted. */
  ghost predicate QueueOk(p: Pool)
  {
    p.capacity > 0 && p.c.accepted == p.log.started + p.queue && |p.queue| <= p.capacity
  }

  ghost predicate RunsOk(running: map<Thread, Item>, log: Log)
  {
    && (forall t, u :: t in running && u in running && t != u ==> running[t] != running[u])
    && running.Values !! SetOf(log.finished)
    && SetOf(log.started) == SetOf(log.finished) + running.Values
    && NoDup(log.finished)
  }

  function Filter(s: seq<Item>, f: Item -> bool): seq<Item> {
    if s == [] then [] else Filter(s[..|s| - 1], f) + (if f(s[|s| - 1]) then [s[|s| - 1]] else [])
  }

  lemma {:induction false} FilterIn(s: seq<Item>, f: Item -> bool, x: Item)
    ensures x in Filter(s, f) <==> x in s && f(x)
  {
    if s == [] {
    } else {
      var n := |s| - 1;
      FilterIn(s[..n], f, x);
      assert s == s[..n] + [s[n]];
    }
  }

  lemma {:induction false} FilterNoDup(s: seq<Item>, f: Item -> bool)
    requires NoDup(s)
    ensures NoDup(Filter(s, f))
  {
    if s == [] {
    } else {
      var n := |s| - 1;
      FilterNoDup(s[..n], f);
      FilterIn(s[..n], f, s[n]);
      assert s[n] !in s[..n];
    }
  }

  lemma {:induction false} CountOnce(s: seq<Item>, x: Item)
    requires NoDup(s)
    ensures multiset(s)[x] == One(x in s)
  {
    if s == [] {
    } else {
      var n := |s| - 1;
      CountOnce(s[..n], x);
      assert s == s[..n] + [s[n]];
      assert s[n] !in s[..n];
    }
  }

  /** Each finished item had its callback invoked once if it has one, and nothing else was invoked. */
  lemma CallbacksExactly(log: Log, rejected: set<Item>, hasCallback: Item -> bool, i: Item)
    requires ContextsOk(log, rejected, hasCallback) && NoDup(log.finished)
    ensures multiset(log.callbacks)[i] == One(i in log.finished && hasCallback(i))
  {
    FilterIn(log.finished, hasCallback, i);
    FilterNoDup(log.finished, hasCallback);
    CountOnce(log.callbacks, i);
  }

  ghost predicate ContextsOk(log: Log, rejected: set<Item>, hasCallback: Item -> bool)
  {
    && log.callbacks == Filter(log.finished, hasCallback)
    && NoDup(log.freed) && SetOf(log.freed) == SetOf(log.finished) + rejected
  }

  ghost predicate Inv(p: Pool, hasCallback: Item -> bool)
  {
    && WorkersOk(p.threads, p.w) && ExitOk(p) && WakeOk(p) && CallsOk(p.c) && QueueOk(p)
    && RunsOk(p.w.running, p.log) && ContextsOk(p.log, p.c.rejected, hasCallback)
  }

  lemma InitInv(p: Pool, hasCallback: Item -> bool)
    requires Init(p)
    ensures Inv(p, hasCallback)
  {
    assert SetOf(p.log.freed) == {} && p.w.running.Values == {};
  }

  /* ---------- one section ---------- */

  lemma SubmitCalls(c: Calls, i: Item)
    requires CallsOk(c) && (i in c.entering || i in c.released)
    ensures var d := Leave(c, i);
            CallsOk(d.(rejected := d.rejected + {i})) && CallsOk(d.(blocked := d.blocked + {i}))
            && CallsOk(d.(accepted := d.accepted + [i]))
    ensures i !in c.accepted && i !in c.rejected && i !in c.blocked
  {
    assert i !in SetOf(c.accepted);
    SetOfAppend(c.accepted, i);
    hide NoDup, SetOf;
  }

  lemma WakeWorkers(threads: set<Thread>, w: Workers, u: set<Thread>)
    requires WorkersOk(threads, w) && u <= w.parked
    ensures WorkersOk(threads, Wake(w, u)) && |Wake(w, u).woken| == |w.woken| + |u|
  {
    assert u !! w.woken;
  }

  /** At least one waiter became runnable if there was any. */
  lemma WakeSize(waiting: set<nat>, u: set<nat>)
    requires Signalled(waiting, u)
    ensures waiting != {} ==> |u| >= 1
  {
    if waiting != {} { assert |u| > 0; }
  }

  lemma MinusSize(s: set<nat>, i: nat)
    ensures |s - {i}| >= |s| - 1
  {
    if i in s { assert s == (s - {i}) + {i}; } else { assert s - {i} == s; }
  }

  lemma EnqueueWakes(n: nat, threads: set<Thread>, w: Workers, u: set<Thread>)
    requires WorkersOk(threads, w) && Signalled(w.parked, u) && NoLostWork(n, w.parked, w.woken)
    ensures NoLostWork(n + 1, Wake(w, u).parked, Wake(w, u).woken)
  {
    WakeWorkers(threads, w, u);
    WakeSize(w.parked, u);
    hide WorkersOk;
    if w.parked - u != {} { assert w.parked != {}; }
  }

  lemma LeaveKeepsRoom(n: nat, capacity: nat, blocked: set<Item>, released: set<Item>, i: Item)
    requires NoLostRoom(n, capacity, blocked, released)
    ensures NoLostRoom(n + 1, capacity, blocked, released - {i})
    ensures n >= capacity ==> NoLostRoom(n, capacity, blocked + {i}, released - {i})
  {
    MinusSize(released, i);
  }

  lemma SubmitWake(p: Pool, i: Item, u: set<Thread>)
    requires WorkersOk(p.threads, p.w) && WakeOk(p) && Enabled(p, Submit(i, u))
    ensures WakeOk(SubmitStep(p, i, u))
  {
    hide WorkersOk, NoLostWork, NoLostRoom;
    EnqueueWakes(|p.queue|, p.threads, p.w, u);
    LeaveKeepsRoom(|p.queue|, p.capacity, p.c.blocked, p.c.released, i);
    NoneBlocked(|p.queue|, p.capacity, Leave(p.c, i).released);
  }

  lemma NoneBlocked(n: nat, capacity: nat, released: set<Item>)
    ensures NoLostRoom(n, capacity, {}, released)
  {
  }

  lemma SubmitInv(p: Pool, i: Item, u: set<Thread>, hasCallback: Item -> bool)
    requires Inv(p, hasCallback) && Enabled(p, Submit(i, u))
    ensures Inv(SubmitStep(p, i, u), hasCallback)
  {
    hide WorkersOk, WakeOk, CallsOk, RunsOk, ContextsOk;
    SubmitCalls(p.c, i);
    WakeWorkers(p.threads, p.w, u);
    SubmitWake(p, i, u);
    if p.shutdown { RejectContexts(p, i, hasCallback); }
    hide Wake, Leave, QueueOk;
    SubmitQueue(p, i, u);
  }

  lemma SubmitQueue(p: Pool, i: Item, u: set<Thread>)
    requires QueueOk(p) && ExitOk(p)
    ensures QueueOk(SubmitStep(p, i, u)) && ExitOk(SubmitStep(p, i, u))
  {
    assert p.log.started + (p.queue + [i]) == p.log.started + p.queue + [i];
  }

  lemma RejectContexts(p: Pool, i: Item, hasCallback: Item -> bool)
    requires Inv(p, hasCallback) && i !in p.c.accepted && i !in p.c.rejected
    ensures RunsOk(p.w.running, p.log.(freed := p.log.freed + [i]))
    ensures ContextsOk(p.log.(freed := p.log.freed + [i]), p.c.rejected + {i}, hasCallback)
  {
    assert i !in p.log.started;
    assert i !in SetOf(p.log.finished);
    SetOfAppend(p.log.freed, i);
    hide NoDup, WorkersOk, WakeOk, CallsOk;
  }

  lemma WorkWorkers(threads: set<Thread>, w: Workers, t: Thread, i: Item)
    requires WorkersOk(threads, w) && (t in w.ready || t in w.woken)
    ensures var v := Rise(w, t);
            && WorkersOk(threads, v.(parked := v.parked + {t})) && WorkersOk(threads, v.(exited := v.exited + {t}))
            && WorkersOk(threads, v.(running := v.running[t := i]))
    ensures t !in w.running
  {
    var v := Rise(w, t);
    assert v.running[t := i].Keys == v.running.Keys + {t};
  }

  lemma ReleaseSize(c: Calls, u: set<Item>)
    requires CallsOk(c) && u <= c.blocked
    ensures |Release(c, u).released| == |c.released| + |u|
  {
    assert u !! c.released;
  }

  lemma DequeueReleases(n: nat, capacity: nat, c: Calls, u: set<Item>)
    requires CallsOk(c) && Signalled(c.blocked, u) && NoLostRoom(n, capacity, c.blocked, c.released) && n > 0
    ensures NoLostRoom(n - 1, capacity, Release(c, u).blocked, Release(c, u).released)
  {
    ReleaseSize(c, u);
    WakeSize(c.blocked, u);
    hide CallsOk;
    if c.blocked - u != {} { assert c.blocked != {}; }
  }

  lemma RiseKeepsWork(n: nat, parked: set<Thread>, woken: set<Thread>, t: Thread)
    requires NoLostWork(n, parked, woken)
    ensures n > 0 ==> NoLostWork(n - 1, parked, woken - {t})
    ensures n == 0 ==> NoLostWork(n, parked, woken - {t}) && NoLostWork(n, parked + {t}, woken - {t})
  {
    MinusSize(woken, t);
  }

  lemma WorkWake(p: Pool, t: Thread, u: set<Item>)
    requires WakeOk(p) && CallsOk(p.c) && Enabled(p, Work(t, u))
    ensures WakeOk(WorkStep(p, t, u))
  {
    hide CallsOk, NoLostWork, NoLostRoom;
    RiseKeepsWork(|p.queue|, p.w.parked, p.w.woken, t);
    if p.queue != [] { DequeueReleases(|p.queue|, p.capacity, p.c, u); }
  }

  lemma ReleaseCalls(c: Calls, u: set<Item>)
    requires CallsOk(c) && u <= c.blocked
    ensures CallsOk(Release(c, u))
  {
    hide NoDup, SetOf;
  }

  lemma StartRuns(p: Pool, t: Thread, hasCallback: Item -> bool)
    requires Inv(p, hasCallback) && p.queue != [] && t !in p.w.running
    ensures RunsOk(p.w.running[t := p.queue[0]], p.log.(started := p.log.started + [p.queue[0]]))
  {
    var i := p.queue[0];
    var n := |p.log.started|;
    assert p.c.accepted[n] == i;
    assert i !in p.log.started by {
      assert forall k :: 0 <= k < n ==> p.c.accepted[k] == p.log.started[k];
    }
    assert i !in SetOf(p.log.started);
    SetOfAppend(p.log.started, i);
    assert p.w.running[t := i].Values == p.w.running.Values + {i} by {
      assert p.w.running[t := i][t] == i;
      forall x | x in p.w.running.Values
        ensures x in p.w.running[t := i].Values
      {
        var y :| y in p.w.running && p.w.running[y] == x;
        assert p.w.running[t := i][y] == x;
      }
    }
    hide NoDup, WorkersOk, WakeOk, CallsOk, SetOf;
  }

  lemma WorkInv(p: Pool, t: Thread, u: set<Item>, hasCallback: Item -> bool)
    requires Inv(p, hasCallback) && Enabled(p, Work(t, u))
    ensures Inv(WorkStep(p, t, u), hasCallback)
  {
    hide WorkersOk, WakeOk, CallsOk, RunsOk, ContextsOk, NoDup, SetOf;
    WorkWorkers(p.threads, p.w, t, if p.queue == [] then 0 else p.queue[0]);
    WorkWake(p, t, u);
    ReleaseCalls(p.c, u);
    if p.queue != [] {
      StartRuns(p, t, hasCallback);
      StartContexts(p, hasCallback);
    }
  }

  lemma StartContexts(p: Pool, hasCallback: Item -> bool)
    requires ContextsOk(p.log, p.c.rejected, hasCallback) && p.queue != []
    ensures ContextsOk(p.log.(started := p.log.started + [p.queue[0]]), p.c.rejected, hasCallback)
  {
  }

  lemma FinishWorkers(threads: set<Thread>, w: Workers, t: Thread)
    requires WorkersOk(threads, w) && t in w.running
    ensures WorkersOk(threads, w.(running := w.running - {t}, ready := w.ready + {t}))
  {
    assert (w.running - {t}).Keys == w.running.Keys - {t};
  }

  lemma FinishRuns(running: map<Thread, Item>, log: Log, t: Thread, hasCallback: Item -> bool)
    requires RunsOk(running, log) && t in running
    ensures RunsOk(running - {t}, FinishLog(log, running[t], hasCallback))
    ensures running[t] !in log.finished && running[t] in log.started
  {
    var i := running[t];
    assert i in running.Values;
    assert i !in SetOf(log.finished) && i in SetOf(log.started);
    SetOfAppend(log.finished, i);
    assert (running - {t}).Values == running.Values - {i} by {
      forall x | x in running.Values && x != i
        ensures x in (running - {t}).Values
      {
        var y :| y in running && running[y] == x;
        assert (running - {t})[y] == x;
      }
    }
    hide NoDup, SetOf;
  }

  lemma FinishContexts(log: Log, rejected: set<Item>, i: Item, hasCallback: Item -> bool)
    requires ContextsOk(log, rejected, hasCallback) && i !in log.finished && i !in rejected
    ensures ContextsOk(FinishLog(log, i, hasCallback), rejected, hasCallback)
    ensures NoDup(log.finished) ==> multiset(FinishLog(log, i, hasCallback).callbacks)[i] == One(hasCallback(i))
  {
    assert i !in SetOf(log.freed);
    SetOfAppend(log.finished, i);
    SetOfAppend(log.freed, i);
    assert (log.finished + [i])[..|log.finished|] == log.finished;
    hide NoDup, SetOf;
    if NoDup(log.finished) {
      CallbacksExactly(FinishLog(log, i, hasCallback), rejected, hasCallback, i);
    }
  }

  lemma FinishInv(p: Pool, t: Thread, hasCallback: Item -> bool)
    requires Inv(p, hasCallback) && t in p.w.running
    ensures Inv(FinishStep(p, t, hasCallback), hasCallback)
  {
    hide WorkersOk, CallsOk, RunsOk, ContextsOk;
    FinishWorkers(p.threads, p.w, t);
    FinishRuns(p.w.running, p.log, t, hasCallback);
    assert p.w.running[t] in p.c.accepted;
    AcceptedOnly(p.c, p.w.running[t]);
    FinishContexts(p.log, p.c.rejected, p.w.running[t], hasCallback);
    hide FinishLog;
    FinishKeeps(p.log, p.w.running[t], hasCallback);
  }

  lemma AcceptedOnly(c: Calls, i: Item)
    requires CallsOk(c) && i in c.accepted
    ensures i !in c.rejected
  {
    assert i in SetOf(c.accepted);
  }

  lemma FinishKeeps(log: Log, i: Item, hasCallback: Item -> bool)
    ensures FinishLog(log, i, hasCallback).started == log.started
  {
  }

  lemma DestroyInv(p: Pool, hasCallback: Item -> bool)
    requires Inv(p, hasCallback)
    ensures Inv(DestroyStep(p), hasCallback)
  {
    hide RunsOk, ContextsOk, WorkersOk, CallsOk, WakeOk, Wake, Release;
    WakeWorkers(p.threads, p.w, p.w.parked);
    ReleaseCalls(p.c, p.c.blocked);
    AllAwake(p.w, p.c);
    DestroyWake(p);
  }

  lemma DestroyWake(p: Pool)
    ensures WakeOk(DestroyStep(p))
  {
    hide Wake, Release;
    AllAwake(p.w, p.c);
  }

  lemma AllAwake(w: Workers, c: Calls)
    ensures Wake(w, w.parked).parked == {} && Release(c, c.blocked).blocked == {}
    ensures Wake(w, w.parked).exited == w.exited && Wake(w, w.parked).running == w.running
    ensures Release(c, c.blocked).accepted == c.accepted && Release(c, c.blocked).rejected == c.rejected
  {
  }

  lemma SpuriousWorkerInv(p: Pool, t: Thread, hasCallback: Item -> bool)
    requires Inv(p, hasCallback) && t in p.w.parked
    ensures Inv(p.(w := Wake(p.w, {t})), hasCallback)
  {
    hide RunsOk, ContextsOk, WorkersOk, CallsOk;
    WakeWorkers(p.threads, p.w, {t});
  }

  lemma SpuriousSubmitInv(p: Pool, i: Item, hasCallback: Item -> bool)
    requires Inv(p, hasCallback) && i in p.c.blocked
    ensures Inv(p.(c := Release(p.c, {i})), hasCallback)
  {
    hide RunsOk, ContextsOk, WorkersOk, CallsOk;
    ReleaseCalls(p.c, {i});
    ReleaseSize(p.c, {i});
  }

  lemma CallInv(p: Pool, i: Item, hasCallback: Item -> bool)
    requires Inv(p, hasCallback) && !Known(p.c, i)
    ensures Inv(p.(c := p.c.(entering := p.c.entering + {i})), hasCallback)
  {
    hide RunsOk, ContextsOk, WorkersOk, CallsOk;
    EnterCalls(p.c, i);
  }

  lemma EnterCalls(c: Calls, i: Item)
    requires CallsOk(c) && !Known(c, i)
    ensures CallsOk(c.(entering := c.entering + {i}))
  {
    assert i !in SetOf(c.accepted);
    hide NoDup, SetOf;
  }

  /** Every section of every thread keeps the invariant. */
  lemma StepInv(p: Pool, s: Step, hasCallback: Item -> bool)
    requires Inv(p, hasCallback) && Enabled(p, s)
    ensures Inv(Apply(p, s, hasCallback), hasCallback)
  {
    hide Inv, Known, SubmitStep, WorkStep, FinishStep, DestroyStep;
    match s
    case Call(i) => CallInv(p, i, hasCallback);
    case Submit(i, u) => SubmitInv(p, i, u, hasCallback);
    case Work(t, u) => WorkInv(p, t, u, hasCallback);
    case Finish(t) => FinishInv(p, t, hasCallback);
    case Destroy => DestroyInv(p, hasCallback);
    case SpuriousWorker(t) => SpuriousWorkerInv(p, t, hasCallback);
    case SpuriousSubmit(i) => SpuriousSubmitInv(p, i, hasCallback);
  }

  /* ---------- whole runs ---------- */

  ghost predicate Run(states: seq<Pool>, steps: seq<Step>, hasCallback: Item -> bool)
  {
    && |states| == |steps| + 1 && Init(states[0])
    && forall k :: 0 <= k < |steps| ==> RunStep(states[k], steps[k], states[k + 1], hasCallback)
  }
  ghost predicate RunStep(p: Pool, s: Step, q: Pool, hasCallback: Item -> bool)
  {
    Enabled(p, s) && q == Apply(p, s, hasCallback)
  }

  /** The invariant holds in every state of every interleaving. */
  lemma {:induction false} RunInv(states: seq<Pool>, steps: seq<Step>, hasCallback: Item -> bool, k: nat)
    requires Run(states, steps, hasCallback) && k <= |steps|
    ensures Inv(states[k], hasCallback)
  {
    hide Inv, Init, Apply, Enabled;
    if k == 0 {
      InitInv(states[0], hasCallback);
    } else {
      RunInv(states, steps, hasCallback, k - 1);
      assert RunStep(states[k - 1], steps[k - 1], states[k], hasCallback);
      StepInv(states[k - 1], steps[k - 1], hasCallback);
    }
  }

  /** Workers that can take the lock or are about to finish an item. */
  function Awake(p: Pool): set<Thread> { p.w.ready + p.w.woken + p.w.running.Keys }

  /** Nobody sleeps while there is something for them to do. */
  lemma NoDeadlock(p: Pool, hasCallback: Item -> bool)
    requires Inv(p, hasCallback)
    ensures p.queue != [] ==> Awake(p) != {}
    ensures p.c.blocked != {} ==> Awake(p) != {} || p.c.released != {}
    ensures p.shutdown ==> p.w.parked == {} && p.c.blocked == {}
  {
    hide CallsOk, RunsOk, ContextsOk;
    if Awake(p) == {} {
      assert p.w.woken == {} && p.w.ready == {} && p.w.running.Keys == {};
      assert p.threads == p.w.parked + p.w.exited;
    }
  }

  /** Shutdown is final: nothing is accepted any more. */
  lemma NothingAfterShutdown(p: Pool, s: Step, hasCallback: Item -> bool)
    requires p.shutdown && Enabled(p, s)
    ensures Apply(p, s, hasCallback).shutdown && Apply(p, s, hasCallback).c.accepted == p.c.accepted
  {
  }

  /**
   When all workers have exited, every accepted item has run exactly once, in submission order of
   starting; the queue is empty, so nothing is left over for the pool to clean up; callbacks were
   invoked once for each item that has one; and every context was freed exactly once.
   */
  lemma Drained(p: Pool, hasCallback: Item -> bool)
    requires Inv(p, hasCallback) && p.w.exited == p.threads
    ensures p.queue == [] && p.log.started == p.c.accepted
    ensures NoDup(p.log.finished) && SetOf(p.log.finished) == SetOf(p.c.accepted)
    ensures forall i :: multiset(p.log.callbacks)[i] == One(i in p.c.accepted && hasCallback(i))
    ensures NoDup(p.log.freed) && SetOf(p.log.freed) == SetOf(p.c.accepted) + p.c.rejected
  {
    hide CallsOk, WakeOk, NoDup, SetOf;
    assert p.w.running.Keys == {};
    assert p.w.running.Values == {};
    assert p.c.accepted == p.log.started && SetOf(p.log.finished) == SetOf(p.c.accepted);
    forall i: Item ensures multiset(p.log.callbacks)[i] == One(i in p.c.accepted && hasCallback(i)) {
      CallbacksExactly(p.log, p.c.rejected, hasCallback, i);
      InSetOf(p.log.finished, i);
      InSetOf(p.c.accepted, i);
    }
  }

  /** What a thread of the pool does on its own, as opposed to new calls and spurious wake-ups. */
  predicate Own(s: Step) { s.Submit? || s.Work? || s.Finish? }

  function Measure(p: Pool): nat {
    3 * |p.queue| + 2 * |p.w.running.Keys| + |p.w.ready| + |p.w.woken| + |p.c.entering| + |p.c.released|
  }

  /** Taking i out of two disjoint sets of which one holds it. */
  lemma TakeOut(a: set<nat>, b: set<nat>, i: nat)
    requires a !! b && (i in a || i in b)
    ensures |a - {i}| + |b - {i}| == |a| + |b| - 1
  {
    if i in a {
      assert a == (a - {i}) + {i} && b - {i} == b;
    } else {
      assert b == (b - {i}) + {i} && a - {i} == a;
    }
  }

  lemma RejectProgress(p: Pool, i: Item, u: set<Thread>)
    requires CallsOk(p.c) && p.shutdown && Enabled(p, Submit(i, u))
    ensures Measure(SubmitStep(p, i, u)) < Measure(p)
  {
    assert p.c.entering !! p.c.released;
    hide CallsOk;
    TakeOut(p.c.entering, p.c.released, i);
  }

  lemma WorkProgress(p: Pool, t: Thread, u: set<Item>)
    requires WorkersOk(p.threads, p.w) && p.shutdown && p.c.blocked == {} && Enabled(p, Work(t, u))
    ensures Measure(WorkStep(p, t, u)) < Measure(p)
  {
    hide WorkersOk;
    AwakeApart(p.threads, p.w, t);
    TakeOut(p.w.ready, p.w.woken, t);
    if p.queue != [] {
      OneMore(p.w.running, t, p.queue[0]);
      assert u == {} && p.c.released + u == p.c.released;
    }
  }

  lemma AwakeApart(threads: set<Thread>, w: Workers, t: Thread)
    requires WorkersOk(threads, w) && (t in w.ready || t in w.woken)
    ensures w.ready !! w.woken && t !in w.running
  {
  }

  lemma OneMore(running: map<Thread, Item>, t: Thread, i: Item)
    requires t !in running
    ensures |running[t := i].Keys| == |running.Keys| + 1
  {
    assert running[t := i].Keys == running.Keys + {t};
  }

  lemma FinishProgress(p: Pool, t: Thread, hasCallback: Item -> bool)
    requires WorkersOk(p.threads, p.w) && t in p.w.running
    ensures Measure(FinishStep(p, t, hasCallback)) < Measure(p)
  {
    assert t !in p.w.ready;
    hide WorkersOk;
    assert (p.w.running - {t}).Keys == p.w.running.Keys - {t};
  }

  /** After shutdown every section of a pool thread brings the pool closer to rest. */
  lemma DrainProgress(p: Pool, s: Step, hasCallback: Item -> bool)
    requires Inv(p, hasCallback) && p.shutdown && Enabled(p, s) && Own(s)
    ensures Measure(Apply(p, s, hasCallback)) < Measure(p)
  {
    hide RunsOk, ContextsOk, QueueOk, CallsOk, WorkersOk, Measure;
    match s
    case Submit(i, u) => RejectProgress(p, i, u);
    case Work(t, u) => WorkProgress(p, t, u);
    case Finish(t) => FinishProgress(p, t, hasCallback);
  }

  /** And while it is not at rest, some thread can take a step; at rest, all workers have exited. */
  lemma DrainEnds(p: Pool, hasCallback: Item -> bool)
    requires Inv(p, hasCallback) && p.shutdown
    requires forall s :: Own(s) ==> !Enabled(p, s)
    ensures p.w.exited == p.threads && p.c.entering == {} && p.c.released == {}
  {
    hide RunsOk, ContextsOk, QueueOk, CallsOk;
    assert p.w.parked == {} && p.c.blocked == {};
    forall i ensures i !in p.c.entering && i !in p.c.released {
      assert !Enabled(p, Submit(i, {}));
    }
    forall t ensures t !in p.w.ready && t !in p.w.woken && t !in p.w.running {
      assert !Enabled(p, Work(t, {})) && !Enabled(p, Finish(t));
    }
  }

  /** What else can happen after shutdown: new calls, each worth one step, and destroy again. */
  lemma OtherProgress(p: Pool, s: Step, hasCallback: Item -> bool)
    requires Inv(p, hasCallback) && p.shutdown && Enabled(p, s) && !Own(s)
    ensures Measure(Apply(p, s, hasCallback)) <= Measure(p) + One(s.Call?)
  {
    hide RunsOk, ContextsOk, QueueOk, CallsOk, WorkersOk;
    assert p.w.parked == {} && p.c.blocked == {};
    match s
    case Call(i) => assert |p.c.entering + {i}| <= |p.c.entering| + 1;
    case Destroy => SameWoken(p);
    case SpuriousWorker(t) => assert false;
    case SpuriousSubmit(i) => assert false;
  }

  lemma SameWoken(p: Pool)
    requires p.w.parked == {} && p.c.blocked == {}
    ensures Measure(DestroyStep(p)) == Measure(p)
  {
    assert p.w.woken + p.w.parked == p.w.woken;
    assert p.c.released + p.c.blocked == p.c.released;
  }

  function Owns(steps: seq<Step>): nat
  {
    if steps == [] then 0 else Owns(steps[..|steps| - 1]) + One(Own(steps[|steps| - 1]))
  }

  function Arrivals(steps: seq<Step>): nat
  {
    if steps == [] then 0 else Arrivals(steps[..|steps| - 1]) + One(steps[|steps| - 1].Call?)
  }

  /**
   So in every run, after shutdown the pool threads take at most as many steps as the measure at shutdown and the calls
   that still come in: destroy's joins always return.
   */
  lemma {:induction false} DrainBounded(states: seq<Pool>, steps: seq<Step>, hasCallback: Item -> bool, m: nat, k: nat)
    requires Run(states, steps, hasCallback) && m <= k <= |steps| && states[m].shutdown
    ensures states[k].shutdown
    ensures Owns(steps[m..k]) + Measure(states[k]) <= Measure(states[m]) + Arrivals(steps[m..k])
    decreases k
  {
    hide Inv, Measure, Apply, Enabled;
    if k == m {
    } else {
      DrainBounded(states, steps, hasCallback, m, k - 1);
      var p, s := states[k - 1], steps[k - 1];
      assert RunStep(p, s, states[k], hasCallback);
      assert steps[m..k] == steps[m..k - 1] + [s];
      RunInv(states, steps, hasCallback, k - 1);
      NothingAfterShutdown(p, s, hasCallback);
      if Own(s) {
        DrainProgress(p, s, hasCallback);
      } else {
        OtherProgress(p, s, hasCallback);
      }
    }
  }
}
