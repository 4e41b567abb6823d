/** The thread pool of src/arken/concurrent/core.cpp, as a transition system whose steps are
    the critical sections of the code (and, in shutdown, each unlocked push and increment). */
module ThreadPool {

  const WRAP: nat := 0x1_0000_0000

  /** The std::atomic<uint32_t> m_actives. */
  type Counter = n: int | 0 <= n < WRAP witness 0

  function Inc(a: Counter): Counter { if a == WRAP - 1 then 0 else a + 1 }

  function Dec(a: Counter): Counter { if a == 0 then WRAP - 1 else a - 1 }

  /** What a counter reads after n increments net of decrements. */
  function Wrap(n: int): Counter { n % WRAP }

  lemma WrapStep(n: int)
    ensures Wrap(n + 1) == Inc(Wrap(n)) && Wrap(n) == Dec(Wrap(n + 1))
  {
  }

  lemma WrapZero(n: int)
    ensures Wrap(n) == 0 <==> n % WRAP == 0
    ensures 0 <= n < WRAP ==> (Wrap(n) == 0 <==> n == 0)
  {
  }

  lemma WrapSmall(n: int)
    ensures 0 <= n < WRAP ==> Wrap(n) == n
    ensures Wrap(-1) == WRAP - 1
  {
  }

  datatype Job = Job(uuid: string, inspect: string)

  /** What the queue holds: a task, or the null pointer that shutdown pushes. */
  datatype Item = Task(job: Job) | Stop

  /** Where a worker thread stands in its loop: before get(); after get() while run() goes on;
      after finished(true); after a get() that returned null; returned. */
  datatype Worker = Ready | Running(job: Job) | Finished(job: Job) | Leaving | Gone

  datatype Pool = Pool(
    max: nat,
    peak: nat,       // the largest max so far
    workers: seq<Worker>,
    queue: seq<Item>,
    actives: Counter,
    waiting: map<string, string>,
    running: map<nat, Job>,
    pushed: nat,     // nulls pushed by shutdown
    counted: nat,    // increments shutdown has done
    started: seq<Job>,
    taken: seq<Job>,
    finished: multiset<Job>)

  datatype Step =
    | Start(job: Job)
    | Get(w: nat)
    | Finish(w: nat)
    | Retire(w: nat)
    | Leave(w: nat)
    | PushStop
    | CountStop
    | SetMax(n: nat)

  // ---------- counting workers and queue entries ----------

  predicate Busy(w: Worker) { !w.Ready? && !w.Gone? }

  predicate Stopped(w: Worker) { w.Leaving? || w.Gone? }

  function Count(ws: seq<Worker>, p: Worker -> bool): nat {
    if ws == [] then 0 else (if p(ws[0]) then 1 else 0) + Count(ws[1..], p)
  }

  function Held(w: Worker): multiset<Job> {
    if w.Running? then multiset{w.job} else multiset{}
  }

  /** The tasks taken from the queue whose run() has not returned. */
  function Holding(ws: seq<Worker>): multiset<Job> {
    if ws == [] then multiset{} else Held(ws[0]) + Holding(ws[1..])
  }

  function Jobs(q: seq<Item>): seq<Job> {
    if q == [] then [] else (if q[0].Task? then [q[0].job] else []) + Jobs(q[1..])
  }

  function Stops(q: seq<Item>): nat {
    if q == [] then 0 else (if q[0].Stop? then 1 else 0) + Stops(q[1..])
  }

  lemma {:induction false} CountUpdate(ws: seq<Worker>, i: nat, w: Worker, p: Worker -> bool)
    requires i < |ws|
    ensures Count(ws[i := w], p) + (if p(ws[i]) then 1 else 0)
         == Count(ws, p) + (if p(w) then 1 else 0)
  {
    var us := ws[i := w];
    if i == 0 {
      assert us[1..] == ws[1..];
    } else {
      assert us[1..] == ws[1..][i - 1 := w];
      CountUpdate(ws[1..], i - 1, w, p);
    }
  }

  lemma {:induction false} CountAppend(ws: seq<Worker>, w: Worker, p: Worker -> bool)
    ensures Count(ws + [w], p) == Count(ws, p) + (if p(w) then 1 else 0)
  {
    if ws == [] {
      assert ws + [w] == [w];
    } else {
      assert (ws + [w])[1..] == ws[1..] + [w];
      CountAppend(ws[1..], w, p);
    }
  }

  lemma {:induction false} CountBound(ws: seq<Worker>, p: Worker -> bool)
    ensures Count(ws, p) <= |ws|
    ensures (forall w :: w in ws ==> p(w)) ==> Count(ws, p) == |ws|
    ensures Count(ws, p) == |ws| ==> forall w :: w in ws ==> p(w)
    ensures Count(ws, p) == 0 ==> forall w :: w in ws ==> !p(w)
  {
    if ws != [] {
      CountBound(ws[1..], p);
      assert ws == [ws[0]] + ws[1..];
    }
  }

  lemma HoldingTail(ws: seq<Worker>)
    requires ws != []
    ensures Holding(ws) == Held(ws[0]) + Holding(ws[1..])
  {
  }

  lemma AddBoth(h: multiset<Job>, a: multiset<Job>, b: multiset<Job>, c: multiset<Job>, d: multiset<Job>)
    requires a + b == c + d
    ensures (h + a) + b == (h + c) + d
  {
    assert (h + a) + b == h + (a + b);
    assert (h + c) + d == h + (c + d);
  }

  lemma {:induction false} HoldingUpdate(ws: seq<Worker>, i: nat, w: Worker)
    requires i < |ws|
    ensures Holding(ws[i := w]) + Held(ws[i]) == Holding(ws) + Held(w)
  {
    hide Holding, Held;
    var us := ws[i := w];
    if i == 0 {
      assert us[1..] == ws[1..];
      HoldingTail(us);
      HoldingTail(ws);
    } else {
      assert us[1..] == ws[1..][i - 1 := w];
      HoldingUpdate(ws[1..], i - 1, w);
      HoldingTail(us);
      HoldingTail(ws);
      AddBoth(Held(ws[0]), Holding(us[1..]), Held(ws[i]), Holding(ws[1..]), Held(w));
    }
  }

  lemma {:induction false} HoldingAppend(ws: seq<Worker>, w: Worker)
    ensures Holding(ws + [w]) == Holding(ws) + Held(w)
  {
    if ws == [] {
      assert ws + [w] == [w];
    } else {
      assert (ws + [w])[1..] == ws[1..] + [w];
      HoldingAppend(ws[1..], w);
    }
  }

  lemma {:induction false} HoldingNone(ws: seq<Worker>)
    requires forall w :: w in ws ==> !w.Running?
    ensures Holding(ws) == multiset{}
  {
    if ws != [] {
      HoldingNone(ws[1..]);
    }
  }

  lemma {:induction false} QueueAppend(q: seq<Item>, x: Item)
    ensures Jobs(q + [x]) == Jobs(q) + (if x.Task? then [x.job] else [])
    ensures Stops(q + [x]) == Stops(q) + (if x.Stop? then 1 else 0)
  {
    if q == [] {
      assert q + [x] == [x];
    } else {
      assert (q + [x])[1..] == q[1..] + [x];
      QueueAppend(q[1..], x);
      Regroup(if q[0].Task? then [q[0].job] else [], Jobs(q[1..]), if x.Task? then [x.job] else []);
    }
  }

  lemma Regroup(a: seq<Job>, b: seq<Job>, c: seq<Job>)
    ensures a + (b + c) == (a + b) + c
  {
  }

  /** Every null is behind every task. */
  predicate Ordered(q: seq<Item>) {
    q == [] || (Ordered(q[1..]) && (q[0].Stop? ==> Jobs(q[1..]) == []))
  }

  lemma {:induction false} OrderedAppend(q: seq<Item>, x: Item)
    requires Ordered(q)
    requires x.Task? ==> Stops(q) == 0
    ensures Ordered(q + [x])
  {
    if q == [] {
      assert q + [x] == [x];
    } else {
      assert (q + [x])[1..] == q[1..] + [x];
      OrderedAppend(q[1..], x);
      QueueAppend(q[1..], x);
    }
  }

  // ---------- the steps ----------

  function Init(max: nat): Pool {
    Pool(max, max, [], [], 0, map[], map[], 0, 0, [], [], multiset{})
  }

  predicate Enabled(s: Pool, step: Step) {
    match step
    case Start(_) => s.pushed == 0
    case Get(w) => w < |s.workers| && s.workers[w].Ready? && s.queue != []
    case Finish(w) => w < |s.workers| && s.workers[w].Running?
    case Retire(w) => w < |s.workers| && s.workers[w].Finished?
    case Leave(w) => w < |s.workers| && s.workers[w].Leaving?
    case PushStop => s.pushed == s.counted && s.pushed < |s.workers|
    case CountStop => s.counted < s.pushed
    case SetMax(n) => n < WRAP
  }

  /** core::start: a thread is added only when every existing one is accounted for in actives. */
  function Started(s: Pool, j: Job): Pool {
    var more := |s.workers| < s.max && |s.workers| == s.actives;
    s.(workers := if more then s.workers + [Ready] else s.workers,
       queue := s.queue + [Task(j)],
       actives := Inc(s.actives),
       waiting := s.waiting[j.uuid := j.inspect],
       started := s.started + [j])
  }

  /** core::get, once the wait is over. */
  function Got(s: Pool, w: nat): Pool
    requires Enabled(s, Get(w))
  {
    match s.queue[0]
    case Stop => s.(queue := s.queue[1..], workers := s.workers[w := Leaving])
    case Task(j) =>
      s.(queue := s.queue[1..],
         workers := s.workers[w := Running(j)],
         waiting := s.waiting - {j.uuid},
         running := s.running[w := j],
         taken := s.taken + [j])
  }

  function Apply(s: Pool, step: Step): Pool
    requires Enabled(s, step)
  {
    match step
    case Start(j) => Started(s, j)
    case Get(w) => Got(s, w)
    case Finish(w) =>
      var j := s.workers[w].job;
      s.(workers := s.workers[w := Finished(j)], finished := s.finished + multiset{j})
    case Retire(w) =>
      s.(workers := s.workers[w := Ready], running := s.running - {w}, actives := Dec(s.actives))
    case Leave(w) => s.(workers := s.workers[w := Gone], actives := Dec(s.actives))
    case PushStop => s.(queue := s.queue + [Stop], pushed := s.pushed + 1)
    case CountStop => s.(actives := Inc(s.actives), counted := s.counted + 1)
    case SetMax(n) => s.(max := n, peak := if n > s.peak then n else s.peak)
  }

  // ---------- the invariant ----------

  /** Queued entries plus the threads between a get and the decrement that answers it. */
  function Outstanding(s: Pool): nat { |s.queue| + Count(s.workers, Busy) }

  /** Every started task is queued in start order or was taken in start order; what was taken
      is finished or held, so nothing runs twice. */
  ghost predicate TasksKept(s: Pool) {
    && s.taken + Jobs(s.queue) == s.started
    && multiset(s.taken) == s.finished + Holding(s.workers)
  }

  /** The counter, with the one increment shutdown may still owe. */
  ghost predicate Accounted(s: Pool) {
    && s.counted <= s.pushed <= s.counted + 1
    && s.actives == Wrap(Outstanding(s) + s.counted - s.pushed)
  }

  ghost predicate Spawned(s: Pool) {
    s.max <= s.peak < WRAP && |s.workers| <= s.peak
  }

  /** While there are fewer threads than allowed, each outstanding entry has one. */
  ghost predicate Covered(s: Pool) {
    s.pushed == 0 && |s.workers| < s.max ==> Outstanding(s) <= |s.workers|
  }

  ghost predicate RunningMap(s: Pool) {
    forall w: nat :: (w in s.running <==> w < |s.workers| && (s.workers[w].Running? || s.workers[w].Finished?))
      && (w in s.running ==> s.running[w] == s.workers[w].job)
  }

  /** Nulls: each is queued or was taken by one thread, which never comes back, and none is
      ahead of a task. */
  ghost predicate StopsLast(s: Pool) {
    && s.pushed <= |s.workers|
    && s.pushed == Stops(s.queue) + Count(s.workers, Stopped)
    && Ordered(s.queue)
    && (Count(s.workers, Stopped) > 0 ==> Jobs(s.queue) == [])
  }

  ghost predicate Inv(s: Pool) {
    && TasksKept(s) && Accounted(s) && Spawned(s) && RunningMap(s) && StopsLast(s)
  }

  /** What one step does to the number of outstanding entries, of threads that took a null, and
      of queued nulls. */
  lemma Counts(s: Pool, step: Step)
    requires Enabled(s, step)
    ensures var t := Apply(s, step);
      && Outstanding(t) == Outstanding(s)
           + (if step.Start? || step.PushStop? then 1 else if step.Retire? || step.Leave? then -1 else 0)
      && Count(t.workers, Stopped) == Count(s.workers, Stopped)
           + (if step.Get? && s.queue[0].Stop? then 1 else 0)
      && Stops(t.queue) == Stops(s.queue)
           + (if step.PushStop? then 1 else if step.Get? && s.queue[0].Stop? then -1 else 0)
  {
    hide Count;
    var t := Apply(s, step);
    match step
    case Start(j) =>
      CountAppend(s.workers, Ready, Busy);
      CountAppend(s.workers, Ready, Stopped);
      QueueAppend(s.queue, Task(j));
    case PushStop => QueueAppend(s.queue, Stop);
    case CountStop =>
    case SetMax(_) =>
    case Get(w) =>
      CountUpdate(s.workers, w, t.workers[w], Busy);
      CountUpdate(s.workers, w, t.workers[w], Stopped);
    case Finish(w) =>
      CountUpdate(s.workers, w, t.workers[w], Busy);
      CountUpdate(s.workers, w, t.workers[w], Stopped);
    case Retire(w) =>
      CountUpdate(s.workers, w, t.workers[w], Busy);
      CountUpdate(s.workers, w, t.workers[w], Stopped);
    case Leave(w) =>
      CountUpdate(s.workers, w, t.workers[w], Busy);
      CountUpdate(s.workers, w, t.workers[w], Stopped);
  }

  predicate TakesTask(s: Pool, step: Step) { step.Get? && s.queue != [] && s.queue[0].Task? }

  /** What one step does to the queued tasks. */
  lemma MovesQueue(s: Pool, step: Step)
    requires Enabled(s, step)
    ensures var t := Apply(s, step);
      && (step.Start? ==> Jobs(t.queue) == Jobs(s.queue) + [step.job])
      && (TakesTask(s, step) ==> [s.queue[0].job] + Jobs(t.queue) == Jobs(s.queue))
      && (!step.Start? && !TakesTask(s, step) ==> Jobs(t.queue) == Jobs(s.queue))
  {
    if step.Start? {
      QueueAppend(s.queue, Task(step.job));
    } else if step.PushStop? {
      QueueAppend(s.queue, Stop);
    }
  }

  /** What one step does to the held tasks. */
  lemma MovesHolding(s: Pool, step: Step)
    requires Enabled(s, step)
    ensures var t := Apply(s, step);
      && (TakesTask(s, step) ==> Holding(t.workers) == Holding(s.workers) + multiset{s.queue[0].job})
      && (step.Finish? ==> Holding(t.workers) + multiset{s.workers[step.w].job} == Holding(s.workers))
      && (!step.Finish? && !TakesTask(s, step) ==> Holding(t.workers) == Holding(s.workers))
  {
    hide Holding;
    match step
    case Start(_) => HoldingReady(s.workers);
    case Get(w) => HoldingChange(s.workers, w, if s.queue[0].Stop? then Leaving else Running(s.queue[0].job));
    case Finish(w) => HoldingChange(s.workers, w, Finished(s.workers[w].job));
    case Retire(w) => HoldingChange(s.workers, w, Ready);
    case Leave(w) => HoldingChange(s.workers, w, Gone);
    case _ =>
  }

  lemma HoldingReady(ws: seq<Worker>)
    ensures Holding(ws + [Ready]) == Holding(ws)
  {
    HoldingAppend(ws, Ready);
  }

  /** A worker that held nothing takes a task, or one hands its task over. */
  lemma HoldingChange(ws: seq<Worker>, i: nat, w: Worker)
    requires i < |ws|
    ensures w.Running? && !ws[i].Running? ==> Holding(ws[i := w]) == Holding(ws) + multiset{w.job}
    ensures !w.Running? && ws[i].Running? ==> Holding(ws[i := w]) + multiset{ws[i].job} == Holding(ws)
    ensures !w.Running? && !ws[i].Running? ==> Holding(ws[i := w]) == Holding(ws)
  {
    hide Holding;
    HoldingUpdate(ws, i, w);
    Emptied(Holding(ws[i := w]), Held(ws[i]), Holding(ws), Held(w));
  }

  lemma Emptied(a: multiset<Job>, b: multiset<Job>, c: multiset<Job>, d: multiset<Job>)
    requires a + b == c + d
    ensures b == multiset{} ==> a == c + d
    ensures d == multiset{} ==> a + b == c
    ensures b == multiset{} && d == multiset{} ==> a == c
  {
  }

  lemma KeepTasks(s: Pool, step: Step)
    requires TasksKept(s) && Enabled(s, step)
    ensures TasksKept(Apply(s, step))
  {
    hide Jobs, Holding;
    MovesQueue(s, step);
    MovesHolding(s, step);
  }

  lemma KeepAccounts(s: Pool, step: Step)
    requires Accounted(s) && Enabled(s, step)
    ensures Accounted(Apply(s, step))
  {
    hide Outstanding, Wrap;
    Counts(s, step);
    WrapStep(Outstanding(s) + s.counted - s.pushed);
    WrapStep(Outstanding(s) + s.counted - s.pushed - 1);
  }

  lemma KeepSpawned(s: Pool, step: Step)
    requires Spawned(s) && Enabled(s, step)
    ensures Spawned(Apply(s, step))
  {
  }

  lemma KeepStops(s: Pool, step: Step)
    requires StopsLast(s) && Enabled(s, step)
    ensures StopsLast(Apply(s, step))
  {
    hide Holding, Count, Stops;
    Counts(s, step);
    MovesQueue(s, step);
    if step.Start? {
      OrderedAppend(s.queue, Task(step.job));
    } else if step.PushStop? {
      OrderedAppend(s.queue, Stop);
    }
  }

  lemma KeepRunningMap(s: Pool, step: Step)
    requires RunningMap(s) && Enabled(s, step)
    ensures RunningMap(Apply(s, step))
  {
  }

  lemma KeepStep(s: Pool, step: Step)
    requires Inv(s) && Enabled(s, step)
    ensures Inv(Apply(s, step))
  {
    hide Jobs, Holding, Count, Stops, TasksKept, Accounted, Spawned, RunningMap, StopsLast;
    KeepTasks(s, step);
    KeepAccounts(s, step);
    KeepSpawned(s, step);
    KeepStops(s, step);
    KeepRunningMap(s, step);
  }

  // ---------- whole runs ----------

  predicate CanRun(s: Pool, steps: seq<Step>)
    decreases |steps|
  {
    steps == [] || (Enabled(s, steps[0]) && CanRun(Apply(s, steps[0]), steps[1..]))
  }

  function After(s: Pool, steps: seq<Step>): Pool
    requires CanRun(s, steps)
    decreases |steps|
  {
    if steps == [] then s else After(Apply(s, steps[0]), steps[1..])
  }

  lemma InitInv(max: nat)
    requires max < WRAP
    ensures Inv(Init(max))
  {
    WrapSmall(0);
  }

  lemma StepGrows(s: Pool, step: Step)
    requires Enabled(s, step)
    ensures s.started <= Apply(s, step).started && s.taken <= Apply(s, step).taken
    ensures s.finished <= Apply(s, step).finished
  {
  }

  lemma {:induction false} RunKeeps(s: Pool, steps: seq<Step>)
    requires Inv(s) && CanRun(s, steps)
    ensures Inv(After(s, steps))
    ensures s.started <= After(s, steps).started && s.taken <= After(s, steps).taken
    ensures s.finished <= After(s, steps).finished
    decreases |steps|
  {
    hide Inv, Apply;
    if steps != [] {
      StepGrows(s, steps[0]);
      KeepStep(s, steps[0]);
      RunKeeps(Apply(s, steps[0]), steps[1..]);
    }
  }

  /** Every reachable state, whatever max is set to on the way. */
  lemma PoolSafety(max: nat, steps: seq<Step>)
    requires max < WRAP && CanRun(Init(max), steps)
    ensures var s := After(Init(max), steps);
      && s.taken + Jobs(s.queue) == s.started
      && multiset(s.taken) == s.finished + Holding(s.workers)
      && |s.workers| <= s.peak
      && RunningMap(s)
      && (s.pushed == 0 ==> Stops(s.queue) == 0 && s.actives == Wrap(Outstanding(s)))
  {
    hide CanRun, After, Jobs, Stops, Count, Holding, RunningMap;
    InitInv(max);
    RunKeeps(Init(max), steps);
  }

  /** A property of every state of a run, and of every step of it. */
  ghost predicate Throughout(p: Pool -> bool, s: Pool, steps: seq<Step>)
    requires CanRun(s, steps)
    decreases |steps|
  {
    p(s) && (steps == [] || Throughout(p, Apply(s, steps[0]), steps[1..]))
  }

  ghost predicate AllSteps(q: (Pool, Step) -> bool, s: Pool, steps: seq<Step>)
    requires CanRun(s, steps)
    decreases |steps|
  {
    steps == [] || (q(s, steps[0]) && AllSteps(q, Apply(s, steps[0]), steps[1..]))
  }

  /** A property that each step keeps exactly under a condition holds all along a run exactly
      when every step meets the condition; `i` holds of every state anyway. */
  lemma {:induction false} Stepwise(i: Pool -> bool, p: Pool -> bool, q: (Pool, Step) -> bool, s: Pool,
                                    steps: seq<Step>)
    requires CanRun(s, steps) && i(s) && p(s)
    requires forall t, step :: i(t) && Enabled(t, step) ==> i(Apply(t, step))
    requires forall t, step :: i(t) && p(t) && Enabled(t, step) ==> (p(Apply(t, step)) <==> q(t, step))
    ensures Throughout(p, s, steps) <==> AllSteps(q, s, steps)
    decreases |steps|
  {
    hide Apply, Enabled;
    if steps != [] {
      var next := Apply(s, steps[0]);
      if p(next) {
        Stepwise(i, p, q, next, steps[1..]);
      } else {
        NotThroughout(p, next, steps[1..]);
      }
    }
  }

  lemma NotThroughout(p: Pool -> bool, s: Pool, steps: seq<Step>)
    requires CanRun(s, steps) && !p(s)
    ensures !Throughout(p, s, steps)
  {
  }

  // ---------- what setting max keeps ----------

  /** No more threads than max allows. */
  predicate Bounded(s: Pool) { |s.workers| <= s.max }

  /** max is not set below the number of threads. */
  predicate LeavesRoom(s: Pool, step: Step) {
    step.SetMax? ==> |s.workers| <= step.n
  }

  lemma BoundedStep(s: Pool, step: Step)
    requires Bounded(s) && Enabled(s, step)
    ensures Bounded(Apply(s, step)) <==> LeavesRoom(s, step)
  {
  }

  /** The threads never exceed max in a run if and only if max is never set below their number. */
  lemma BoundedExactly(max: nat, steps: seq<Step>)
    requires CanRun(Init(max), steps)
    ensures Throughout(Bounded, Init(max), steps) <==> AllSteps(LeavesRoom, Init(max), steps)
  {
    hide Throughout, AllSteps, CanRun, Apply, Enabled, LeavesRoom;
    assert Bounded(Init(max));
    hide Bounded;
    forall t, step | Bounded(t) && Enabled(t, step)
      ensures Bounded(Apply(t, step)) <==> LeavesRoom(t, step)
    {
      BoundedStep(t, step);
    }
    Stepwise(Anything, Bounded, LeavesRoom, Init(max), steps);
  }

  predicate Anything(s: Pool) { true }

  /** max is not raised above the number of threads while more is outstanding. */
  ghost predicate Suits(s: Pool, step: Step) {
    step.SetMax? && s.pushed == 0 ==> step.n <= |s.workers| || Outstanding(s) <= |s.workers|
  }

  lemma CoveredStep(s: Pool, step: Step)
    requires Inv(s) && Covered(s) && Enabled(s, step)
    ensures Covered(Apply(s, step)) <==> Suits(s, step)
  {
    hide Outstanding, Wrap, TasksKept, RunningMap, StopsLast;
    Counts(s, step);
    WrapSmall(Outstanding(s));
  }

  lemma CoveredRun(s: Pool, steps: seq<Step>)
    requires Inv(s) && Covered(s) && CanRun(s, steps)
    ensures Throughout(Covered, s, steps) <==> AllSteps(Suits, s, steps)
  {
    hide *;
    forall t, step | Inv(t) && Enabled(t, step)
      ensures Inv(Apply(t, step))
      ensures Covered(t) ==> (Covered(Apply(t, step)) <==> Suits(t, step))
    {
      KeepStep(t, step);
      if Covered(t) {
        CoveredStep(t, step);
      }
    }
    Stepwise(Inv, Covered, Suits, s, steps);
  }

  /** In a run before shutdown, fewer threads than max always means that actives is exact and
      at most their number, if and only if max is never raised above them while more is
      outstanding. */
  lemma CoveredExactly(max: nat, steps: seq<Step>)
    requires max < WRAP && CanRun(Init(max), steps)
    ensures Throughout(Covered, Init(max), steps) <==> AllSteps(Suits, Init(max), steps)
    ensures var s := After(Init(max), steps);
      Covered(s) && s.pushed == 0 && |s.workers| < s.max ==> s.actives == Outstanding(s) <= |s.workers|
  {
    hide CanRun, After, Count, Throughout, AllSteps, TasksKept, RunningMap, StopsLast;
    InitInv(max);
    assert Covered(Init(max)) by { NoneCounted(); }
    CoveredRun(Init(max), steps);
    RunKeeps(Init(max), steps);
    WrapSmall(Outstanding(After(Init(max), steps)));
  }

  lemma NoneCounted()
    ensures Count([], Busy) == 0
  {
  }

  /** Lowering max leaves more threads than it allows; raising it leaves more outstanding
      than there are threads. */
  lemma MaxMoves(j: Job)
    ensures CanRun(Init(1), [Start(j), SetMax(0)])
    ensures var s := After(Init(1), [Start(j), SetMax(0)]); |s.workers| > s.max
    ensures CanRun(Init(0), [Start(j), SetMax(1)])
    ensures var s := After(Init(0), [Start(j), SetMax(1)]); |s.workers| < s.max && s.actives > |s.workers|
  {
    var a, b := Apply(Init(1), Start(j)), Apply(Init(0), Start(j));
    assert a.workers == [] + [Ready] && b.workers == [];
    Runs(Init(1), [Start(j), SetMax(0)], a, Apply(a, SetMax(0)), Apply(a, SetMax(0)));
    Runs(Init(0), [Start(j), SetMax(1)], b, Apply(b, SetMax(1)), Apply(b, SetMax(1)));
  }

  lemma RunStep(s: Pool, step: Step, rest: seq<Step>)
    requires Enabled(s, step) && CanRun(Apply(s, step), rest)
    ensures CanRun(s, [step] + rest)
    ensures After(s, [step] + rest) == After(Apply(s, step), rest)
  {
    assert ([step] + rest)[1..] == rest;
  }

  lemma {:induction false} RunConcat(s: Pool, a: seq<Step>, b: seq<Step>)
    requires CanRun(s, a) && CanRun(After(s, a), b)
    ensures CanRun(s, a + b) && After(s, a + b) == After(After(s, a), b)
    decreases |a|
  {
    hide Apply, Enabled;
    if a == [] {
      assert a + b == b;
    } else {
      assert a + b == [a[0]] + (a[1..] + b);
      RunConcat(Apply(s, a[0]), a[1..], b);
      RunStep(s, a[0], a[1..] + b);
    }
  }

  // ---------- threads are added lazily ----------

  /** The largest number of outstanding entries of any state of a run. */
  function Most(s: Pool, steps: seq<Step>): (m: nat)
    requires CanRun(s, steps)
    ensures m >= Outstanding(s)
    decreases |steps|
  {
    var later := if steps == [] then 0 else Most(Apply(s, steps[0]), steps[1..]);
    if later > Outstanding(s) then later else Outstanding(s)
  }

  /** A step adds a thread only as the entry that needs it comes in. */
  lemma AddedForWork(s: Pool, step: Step)
    requires Accounted(s) && Enabled(s, step)
    ensures var t := Apply(s, step); |t.workers| <= |s.workers| || |t.workers| <= Outstanding(t)
  {
    hide Outstanding;
    Counts(s, step);
    WrapBelow(Outstanding(s));
  }

  lemma WrapBelow(n: nat)
    ensures Wrap(n) <= n
  {
  }

  lemma {:induction false} LazyRun(s: Pool, steps: seq<Step>)
    requires Inv(s) && CanRun(s, steps)
    ensures |After(s, steps).workers| <= |s.workers| || |After(s, steps).workers| <= Most(s, steps)
    decreases |steps|
  {
    hide Apply, Enabled, TasksKept, Accounted, Spawned, RunningMap, StopsLast, Outstanding;
    if steps != [] {
      KeepStep(s, steps[0]);
      AddedForWork(s, steps[0]);
      LazyRun(Apply(s, steps[0]), steps[1..]);
    }
  }

  /** There are never more threads than there were outstanding entries at some time. */
  lemma LazyThreads(max: nat, steps: seq<Step>)
    requires max < WRAP && CanRun(Init(max), steps)
    ensures |After(Init(max), steps).workers| <= Most(Init(max), steps)
  {
    hide CanRun, After, Most, Inv;
    InitInv(max);
    LazyRun(Init(max), steps);
  }

  /** When a start adds a thread: there is room below max, and the outstanding entries, counted
      modulo 2^32, are as many as the threads. That is when no thread is left over for it,
      except when max was raised while more was outstanding: then nothing is added. */
  lemma GrowsExactly(max: nat, steps: seq<Step>, j: Job)
    requires max < WRAP && CanRun(Init(max), steps) && After(Init(max), steps).pushed == 0
    ensures var s := After(Init(max), steps);
            var grown := |Apply(s, Start(j)).workers| - |s.workers|;
            var room, needed := |s.workers| < s.max, Outstanding(s) >= |s.workers|;
      && grown == (if room && Outstanding(s) % WRAP == |s.workers| then 1 else 0)
      && ((grown == 1 <==> room && needed) <==>
            !(room && Outstanding(s) > |s.workers| && Outstanding(s) % WRAP != |s.workers|))
      && (Covered(s) ==> (grown == 1 <==> room && needed))
  {
    hide CanRun, After, Outstanding, TasksKept, RunningMap, StopsLast;
    InitInv(max);
    RunKeeps(Init(max), steps);
    WrapBelow(Outstanding(After(Init(max), steps)));
    WrapSmall(Outstanding(After(Init(max), steps)));
  }

  // ---------- shutdown ----------

  /** Nothing queued, nothing held, every task done, every thread out of its loop. */
  ghost predicate Quiet(s: Pool) {
    && s.queue == []
    && s.taken == s.started
    && s.finished == multiset(s.started)
    && s.running == map[]
    && (forall w :: w in s.workers ==> w == Gone)
  }

  lemma QuietWhenNoneOutstanding(s: Pool)
    requires Inv(s) && s.counted == |s.workers| && Outstanding(s) == 0
    ensures Quiet(s)
  {
    CountBound(s.workers, Busy);
    CountBound(s.workers, Stopped);
    HoldingNone(s.workers);
    assert forall w :: w in s.workers ==> !Busy(w) && Stopped(w);
    assert forall w: nat :: w !in s.running by {
      forall w: nat ensures w !in s.running {
        if w < |s.workers| { assert s.workers[w] in s.workers; }
      }
    }
    assert s.running == map[];
  }

  /** Once every null is pushed and counted, reading zero means exactly that the number of
      outstanding entries is a multiple of 2^32; short of 2^32 of them it means the pool is done. */
  lemma ShutdownComplete(max: nat, steps: seq<Step>)
    requires max < WRAP && CanRun(Init(max), steps)
    requires After(Init(max), steps).counted == |After(Init(max), steps).workers|
    ensures var s := After(Init(max), steps);
      && (s.actives == 0 <==> Outstanding(s) % WRAP == 0)
      && (Outstanding(s) < WRAP ==> (s.actives == 0 <==> Quiet(s)))
  {
    hide CanRun, After, RunningMap, TasksKept, Spawned, Wrap, Holding, Jobs, Stops, Count;
    var s := After(Init(max), steps);
    InitInv(max);
    RunKeeps(Init(max), steps);
    WrapZero(Outstanding(s));
    if Outstanding(s) == 0 {
      QuietWhenNoneOutstanding(s);
    }
    if Quiet(s) {
      assert forall w :: w in s.workers ==> !Busy(w);
      CountNone(s.workers, Busy);
    }
  }

  lemma {:induction false} CountNone(ws: seq<Worker>, p: Worker -> bool)
    requires forall w :: w in ws ==> !p(w)
    ensures Count(ws, p) == 0
  {
    if ws != [] {
      CountNone(ws[1..], p);
    }
  }

  /** After shutdown has seen zero nothing can happen any more, so detaching is final. */
  lemma QuietIsFinal(s: Pool, step: Step)
    requires Inv(s) && Quiet(s) && s.counted == |s.workers| > 0
    ensures Enabled(s, step) ==> step.SetMax? && Quiet(Apply(s, step))
  {
    if step.Finish? || step.Retire? || step.Leave? || step.Get? {
      if step.w < |s.workers| { assert s.workers[step.w] in s.workers; }
    }
  }

  /** While a thread has taken a null, no started task is left in the queue. */
  lemma NoTaskLeftBehind(max: nat, steps: seq<Step>, w: nat)
    requires max < WRAP && CanRun(Init(max), steps)
    requires w < |After(Init(max), steps).workers|
    requires Stopped(After(Init(max), steps).workers[w])
    ensures After(Init(max), steps).taken == After(Init(max), steps).started
  {
    var s := After(Init(max), steps);
    InitInv(max);
    RunKeeps(Init(max), steps);
    CountBound(s.workers, Stopped);
    assert s.workers[w] in s.workers;
  }

  /** Idle, with a thread at hand and a null still to be pushed. */
  ghost predicate Idle(s: Pool, w: nat) {
    && Inv(s) && s.queue == [] && Outstanding(s) == 0 && s.pushed == s.counted < |s.workers|
    && w < |s.workers| && s.workers[w] == Ready
  }

  /** Between a push and its increment an idle thread can take the null and leave: from every
      idle state of a pool the counter can come to read 2^32 - 1 with nothing outstanding. */
  lemma WrapsBelowZero(s: Pool, w: nat)
    requires Idle(s, w)
    ensures CanRun(s, [PushStop, Get(w), Leave(w)])
    ensures After(s, [PushStop, Get(w), Leave(w)]).actives == WRAP - 1
    ensures Outstanding(After(s, [PushStop, Get(w), Leave(w)])) == 0
  {
    hide Count, Outstanding;
    var s1 := Apply(s, PushStop);
    var s2 := Apply(s1, Get(w));
    var s3 := Apply(s2, Leave(w));
    NullTaken(s, w, s1, s2, s3);
    hide *;
    RunStep(s2, Leave(w), []);
    RunStep(s1, Get(w), [Leave(w)] + []);
    RunStep(s, PushStop, [Get(w)] + ([Leave(w)] + []));
    assert [PushStop] + ([Get(w)] + ([Leave(w)] + [])) == [PushStop, Get(w), Leave(w)];
  }

  lemma NullTaken(s: Pool, w: nat, s1: Pool, s2: Pool, s3: Pool)
    requires Idle(s, w) && s1 == Apply(s, PushStop)
    requires Enabled(s1, Get(w)) && s2 == Apply(s1, Get(w)) && Enabled(s2, Leave(w)) && s3 == Apply(s2, Leave(w))
    ensures s3.actives == WRAP - 1 && Outstanding(s3) == 0
  {
    hide Count, Outstanding;
    Counts(s, PushStop);
    Counts(s1, Get(w));
    Counts(s2, Leave(w));
    WrapSmall(0);
  }

  /** Such a state is reachable: one task is started, run and retired. */
  lemma IdleReached(j: Job)
    ensures CanRun(Init(1), [Start(j), Get(0), Finish(0), Retire(0)])
    ensures Idle(After(Init(1), [Start(j), Get(0), Finish(0), Retire(0)]), 0)
  {
    var s1 := Apply(Init(1), Start(j));
    assert s1.workers == [] + [Ready] && s1.queue == [] + [Task(j)];
    OneTask(s1, j);
    InitInv(1);
    hide *;
    RunStep(Init(1), Start(j), [Get(0), Finish(0), Retire(0)]);
    assert [Start(j)] + [Get(0), Finish(0), Retire(0)] == [Start(j), Get(0), Finish(0), Retire(0)];
    RunKeeps(Init(1), [Start(j), Get(0), Finish(0), Retire(0)]);
    IdleAgain(After(s1, [Get(0), Finish(0), Retire(0)]));
  }

  lemma IdleAgain(s: Pool)
    requires Inv(s) && s.workers == [Ready] && s.queue == [] && s.pushed == s.counted == 0
    ensures Idle(s, 0)
  {
    assert Count([Ready], Busy) == 0;
  }

  /** A single task goes through the only thread. */
  lemma OneTask(s1: Pool, j: Job)
    requires s1.workers == [Ready] && s1.queue == [Task(j)] && s1.pushed == s1.counted == 0
    ensures CanRun(s1, [Get(0), Finish(0), Retire(0)])
    ensures var s := After(s1, [Get(0), Finish(0), Retire(0)]);
      s.workers == [Ready] && s.queue == [] && s.pushed == s.counted == 0
  {
    var s2 := Apply(s1, Get(0));
    assert s2.workers == [Running(j)] && s2.queue == [];
    var s3 := Apply(s2, Finish(0));
    assert s3.workers == [Finished(j)];
    var s4 := Apply(s3, Retire(0));
    assert s4.workers == [Ready] && s4.pushed == s4.counted == 0 && s4.queue == [];
    hide *;
    RunStep(s3, Retire(0), []);
    assert After(s4, []) == s4 by { RunNone(s4); }
    RunStep(s2, Finish(0), [Retire(0)] + []);
    RunStep(s1, Get(0), [Finish(0)] + ([Retire(0)] + []));
    assert [Get(0)] + ([Finish(0)] + ([Retire(0)] + [])) == [Get(0), Finish(0), Retire(0)];
  }

  lemma RunNone(s: Pool)
    ensures CanRun(s, []) && After(s, []) == s
  {
  }

  /** n times the same start. */
  function Starts(j: Job, n: nat): seq<Step> {
    if n == 0 then [] else [Start(j)] + Starts(j, n - 1)
  }

  lemma {:induction false} ManyStarts(s: Pool, j: Job, n: nat)
    requires s.pushed == 0 && s.counted == 0 && s.max <= |s.workers|
    ensures CanRun(s, Starts(j, n))
    ensures var t := After(s, Starts(j, n));
      t.workers == s.workers && |t.queue| == |s.queue| + n && t.pushed == t.counted == 0 && t.max == s.max
    decreases n
  {
    if n > 0 {
      var t := Apply(s, Start(j));
      ManyStarts(t, j, n - 1);
      RunStep(s, Start(j), Starts(j, n - 1));
    }
  }

  /** The limit on outstanding entries is needed: in a pool of one thread that starts 2^32 - 1
      tasks and shuts down, the counter reads zero with all of them still queued. */
  lemma ShutdownTooEarly(j: Job)
    ensures exists steps ::
      && CanRun(Init(1), steps)
      && var s := After(Init(1), steps);
         s.counted == |s.workers| == 1 && s.actives == 0 && Outstanding(s) == WRAP && !Quiet(s)
  {
    hide Outstanding, Starts, CanRun, After, Inv;
    var s1 := Apply(Init(1), Start(j));
    assert s1.workers == [] + [Ready] && |s1.queue| == 1;
    ManyStarts(s1, j, WRAP - 2);
    var s2 := After(s1, Starts(j, WRAP - 2));
    var a := [Start(j)] + Starts(j, WRAP - 2);
    RunStep(Init(1), Start(j), Starts(j, WRAP - 2));
    EndsWithStop(a, s2);
  }

  lemma EndsWithStop(a: seq<Step>, s: Pool)
    requires CanRun(Init(1), a) && s == After(Init(1), a)
    requires s.workers == [Ready] && |s.queue| == WRAP - 1 && s.pushed == s.counted == 0
    ensures CanRun(Init(1), a + [PushStop, CountStop])
    ensures var t := After(Init(1), a + [PushStop, CountStop]);
      t.counted == |t.workers| == 1 && t.actives == 0 && Outstanding(t) == WRAP && !Quiet(t)
  {
    var s1 := Apply(s, PushStop);
    var s2 := Apply(s1, CountStop);
    assert |s2.queue| == WRAP && Count([Ready], Busy) == 0;
    RunStep(s1, CountStop, []);
    RunStep(s, PushStop, [CountStop] + []);
    assert [PushStop] + ([CountStop] + []) == [PushStop, CountStop];
    hide Apply, Count;
    RunConcat(Init(1), a, [PushStop, CountStop]);
    ShutdownComplete(1, a + [PushStop, CountStop]);
  }

  // ---------- the waiting map ----------

  ghost predicate Distinct(js: seq<Job>) {
    forall i, k :: 0 <= i < k < |js| ==> js[i].uuid != js[k].uuid
  }

  ghost predicate Queued(u: string, js: seq<Job>) {
    exists i :: 0 <= i < |js| && js[i].uuid == u
  }

  /** waiting holds exactly the queued tasks, each with its description. */
  ghost predicate Lists(waiting: map<string, string>, js: seq<Job>) {
    && (forall u :: u in waiting ==> Queued(u, js))
    && (forall i :: 0 <= i < |js| ==> js[i].uuid in waiting && waiting[js[i].uuid] == js[i].inspect)
  }

  ghost predicate Mirror(s: Pool) { Lists(s.waiting, Jobs(s.queue)) }

  /** The uuid is queued under another description. */
  ghost predicate Conflict(j: Job, js: seq<Job>) {
    exists i :: 0 <= i < |js| && js[i].uuid == j.uuid && js[i].inspect != j.inspect
  }

  lemma ListsSnoc(waiting: map<string, string>, js: seq<Job>, j: Job)
    requires Lists(waiting, js)
    ensures Lists(waiting[j.uuid := j.inspect], js + [j]) <==> !Conflict(j, js)
    ensures Distinct(js) && !Queued(j.uuid, js) ==> Distinct(js + [j]) && !Conflict(j, js)
  {
    var ks, more := js + [j], waiting[j.uuid := j.inspect];
    forall u | u in more ensures Queued(u, ks) {
      if u == j.uuid {
        assert ks[|js|].uuid == u;
      } else {
        var i :| 0 <= i < |js| && js[i].uuid == u;
        assert ks[i].uuid == u;
      }
    }
    if Conflict(j, js) {
      var i :| 0 <= i < |js| && js[i].uuid == j.uuid && js[i].inspect != j.inspect;
      assert ks[i] == js[i];
    }
  }

  lemma DistinctTail(j: Job, ks: seq<Job>)
    requires Distinct([j] + ks)
    ensures Distinct(ks) && !Queued(j.uuid, ks)
  {
    var js := [j] + ks;
    assert forall i :: 0 <= i < |ks| ==> ks[i] == js[i + 1];
    forall i | 0 <= i < |ks| ensures ks[i].uuid != j.uuid {
      assert js[0].uuid != js[i + 1].uuid;
    }
  }

  lemma ListsTail(waiting: map<string, string>, j: Job, ks: seq<Job>)
    requires Lists(waiting, [j] + ks)
    ensures Lists(waiting - {j.uuid}, ks) <==> !Queued(j.uuid, ks)
  {
    var js, rest := [j] + ks, waiting - {j.uuid};
    forall i | 0 <= i < |ks|
      ensures ks[i].uuid in waiting && waiting[ks[i].uuid] == ks[i].inspect
    {
      assert ks[i] == js[i + 1];
    }
    if Queued(j.uuid, ks) {
      assert j.uuid !in rest;
    } else {
      forall u | u in rest ensures Queued(u, ks) {
        var i :| 0 <= i < |js| && js[i].uuid == u;
        assert ks[i - 1].uuid == u;
      }
    }
  }

  /** A task is started with a uuid that no queued task has. */
  ghost predicate Fresh(s: Pool, step: Step) {
    step.Start? ==> !Queued(step.job.uuid, Jobs(s.queue))
  }

  ghost predicate AllFresh(s: Pool, steps: seq<Step>)
    requires CanRun(s, steps)
    decreases |steps|
  {
    steps == [] || (Fresh(s, steps[0]) && AllFresh(Apply(s, steps[0]), steps[1..]))
  }

  lemma MirrorStep(s: Pool, step: Step)
    requires Enabled(s, step) && Fresh(s, step)
    requires Distinct(Jobs(s.queue)) && Mirror(s)
    ensures Distinct(Jobs(Apply(s, step).queue)) && Mirror(Apply(s, step))
  {
    hide Jobs, Lists, Distinct;
    MovesQueue(s, step);
    if step.Start? {
      ListsSnoc(s.waiting, Jobs(s.queue), step.job);
    } else if step.Get? && s.queue[0].Task? {
      DistinctTail(s.queue[0].job, Jobs(Apply(s, step).queue));
      ListsTail(s.waiting, s.queue[0].job, Jobs(Apply(s, step).queue));
    }
  }

  lemma {:induction false} MirrorRun(s: Pool, steps: seq<Step>)
    requires CanRun(s, steps) && AllFresh(s, steps)
    requires Distinct(Jobs(s.queue)) && Mirror(s)
    ensures Mirror(After(s, steps))
    decreases |steps|
  {
    if steps != [] {
      MirrorStep(s, steps[0]);
      MirrorRun(Apply(s, steps[0]), steps[1..]);
    }
  }

  /** In every run that starts tasks under fresh uuids, waiting mirrors the queue throughout. */
  lemma WaitingMirrorsQueue(max: nat, steps: seq<Step>)
    requires CanRun(Init(max), steps) && AllFresh(Init(max), steps)
    ensures Mirror(After(Init(max), steps))
  {
    MirrorRun(Init(max), steps);
  }

  /** A task is started under no uuid queued with another description, and none is taken whose
      uuid is queued again. */
  ghost predicate KeepsMirror(s: Pool, step: Step) {
    && (step.Start? ==> !Conflict(step.job, Jobs(s.queue)))
    && (TakesTask(s, step) ==> !Queued(s.queue[0].job.uuid, Jobs(s.queue[1..])))
  }

  /** The mirror is lost by exactly the steps that do not meet this. */
  lemma MirrorLostByDuplicate(s: Pool, step: Step)
    requires Mirror(s) && Enabled(s, step)
    ensures Mirror(Apply(s, step)) <==> KeepsMirror(s, step)
  {
    hide Jobs, Lists, Distinct, Conflict, Queued;
    MovesQueue(s, step);
    if step.Start? {
      ListsSnoc(s.waiting, Jobs(s.queue), step.job);
    } else if TakesTask(s, step) {
      ListsTail(s.waiting, s.queue[0].job, Jobs(s.queue[1..]));
    }
  }

  /** waiting mirrors the queue in every state of a run if and only if every step keeps it. */
  lemma MirrorExactly(max: nat, steps: seq<Step>)
    requires CanRun(Init(max), steps)
    ensures Throughout(Mirror, Init(max), steps) <==> AllSteps(KeepsMirror, Init(max), steps)
  {
    assert Mirror(Init(max));
    hide *;
    forall t, step | Mirror(t) && Enabled(t, step)
      ensures Mirror(Apply(t, step)) <==> KeepsMirror(t, step)
    {
      MirrorLostByDuplicate(t, step);
    }
    AnythingGoes();
    Stepwise(Anything, Mirror, KeepsMirror, Init(max), steps);
  }

  lemma AnythingGoes()
    ensures forall s :: Anything(s)
  {
  }

  /** Both kinds of step lose it: a second description under a queued uuid, and the first of two
      tasks under one uuid taken. */
  lemma MirrorLost(j: Job, k: Job)
    requires j.uuid == k.uuid && j.inspect != k.inspect
    ensures CanRun(Init(0), [Start(j), Start(k)]) && !Mirror(After(Init(0), [Start(j), Start(k)]))
    ensures CanRun(Init(1), [Start(j), Start(j), Get(0)]) && !Mirror(After(Init(1), [Start(j), Start(j), Get(0)]))
  {
    var a, c := Apply(Init(0), Start(j)), Apply(Init(1), Start(j));
    var b, d := Apply(a, Start(k)), Apply(c, Start(j));
    assert b.queue == [Task(j), Task(k)] && b.waiting[j.uuid] == k.inspect;
    assert Jobs(b.queue)[0] == j;
    assert c.workers == [] + [Ready] && d.workers == [Ready] && d.queue == [Task(j), Task(j)];
    var e := Apply(d, Get(0));
    assert e.queue == [Task(j)] && j.uuid !in e.waiting;
    assert Jobs(e.queue)[0] == j;
    assert !Mirror(b) && !Mirror(e);
    Runs(Init(0), [Start(j), Start(k)], a, b, b);
    Runs(Init(1), [Start(j), Start(j), Get(0)], c, d, e);
  }

  /** A run of two or three steps, state by state. */
  lemma Runs(s: Pool, steps: seq<Step>, a: Pool, b: Pool, c: Pool)
    requires 2 <= |steps| <= 3 && Enabled(s, steps[0]) && a == Apply(s, steps[0])
    requires Enabled(a, steps[1]) && b == Apply(a, steps[1])
    requires if |steps| == 2 then c == b else Enabled(b, steps[2]) && c == Apply(b, steps[2])
    ensures CanRun(s, steps) && After(s, steps) == c
  {
    hide Apply, Enabled;
    var rest := steps[2..];
    if |steps| == 3 {
      RunStep(b, steps[2], []);
      assert rest == [steps[2]] + [];
    } else {
      RunNone(b);
      assert rest == [];
    }
    RunStep(a, steps[1], rest);
    RunStep(s, steps[0], [steps[1]] + rest);
    assert steps == [steps[0]] + ([steps[1]] + rest);
  }

  // ---------- the object ----------

  /** The core singleton; each method is the body of one critical section. */
  class Core {
    var max: nat
    var workers: seq<Worker>
    var queue: seq<Item>
    var actives: Counter
    var waiting: map<string, string>
    var running: map<nat, Job>
    var pushed: nat
    var counted: nat
    ghost var peak: nat
    ghost var started: seq<Job>
    ghost var taken: seq<Job>
    ghost var finished: multiset<Job>

    ghost function View(): Pool
      reads this
    {
      Pool(max, peak, workers, queue, actives, waiting, running, pushed, counted, started, taken, finished)
    }

    constructor (max: nat)
      requires max < WRAP
      ensures View() == Init(max) && Inv(View())
    {
      this.max, peak := max, max;
      workers, queue, actives := [], [], 0;
      waiting, running := map[], map[];
      pushed, counted := 0, 0;
      started, taken, finished := [], [], multiset{};
    }

    /** core::start */
    method Start(ptr: Job)
      requires Inv(View()) && Enabled(View(), Step.Start(ptr))
      modifies this
      ensures View() == Apply(old(View()), Step.Start(ptr)) && Inv(View())
    {
      hide Inv;
      KeepStep(View(), Step.Start(ptr));
      if |workers| < max && |workers| - actives == 0 {
        workers := workers + [Ready];
      }
      queue := queue + [Task(ptr)];
      actives := Inc(actives);
      waiting := waiting[ptr.uuid := ptr.inspect];
      started := started + [ptr];
    }

    /** core::get, with the queue known to be non-empty */
    method Get(thread: nat) returns (item: Item)
      requires Inv(View()) && Enabled(View(), Step.Get(thread))
      modifies this
      ensures View() == Apply(old(View()), Step.Get(thread)) && Inv(View())
      ensures old(queue) == [item] + queue
    {
      hide Inv;
      KeepStep(View(), Step.Get(thread));
      item := queue[0];
      queue := queue[1..];
      if item.Task? {
        waiting := waiting - {item.job.uuid};
        running := running[thread := item.job];
        workers := workers[thread := Running(item.job)];
        taken := taken + [item.job];
      } else {
        workers := workers[thread := Leaving];
      }
    }

    /** The task is run and marked finished. */
    method Finish(thread: nat)
      requires Inv(View()) && Enabled(View(), Step.Finish(thread))
      modifies this
      ensures View() == Apply(old(View()), Step.Finish(thread)) && Inv(View())
    {
      hide Inv;
      KeepStep(View(), Step.Finish(thread));
      finished := finished + multiset{workers[thread].job};
      workers := workers[thread := Finished(workers[thread].job)];
    }

    /** The locked tail of an iteration of core::working */
    method Retire(thread: nat)
      requires Inv(View()) && Enabled(View(), Step.Retire(thread))
      modifies this
      ensures View() == Apply(old(View()), Step.Retire(thread)) && Inv(View())
    {
      hide Inv;
      KeepStep(View(), Step.Retire(thread));
      running := running - {thread};
      actives := Dec(actives);
      workers := workers[thread := Ready];
    }

    /** The locked exit of core::working after a null */
    method Leave(thread: nat)
      requires Inv(View()) && Enabled(View(), Step.Leave(thread))
      modifies this
      ensures View() == Apply(old(View()), Step.Leave(thread)) && Inv(View())
    {
      hide Inv;
      KeepStep(View(), Step.Leave(thread));
      actives := Dec(actives);
      workers := workers[thread := Gone];
    }

    /** queue().push(nullptr) */
    method PushStop()
      requires Inv(View()) && Enabled(View(), Step.PushStop)
      modifies this
      ensures View() == Apply(old(View()), Step.PushStop) && Inv(View())
    {
      hide Inv;
      KeepStep(View(), Step.PushStop);
      queue := queue + [Stop];
      pushed := pushed + 1;
    }

    /** actives()++ in shutdown */
    method CountStop()
      requires Inv(View()) && Enabled(View(), Step.CountStop)
      modifies this
      ensures View() == Apply(old(View()), Step.CountStop) && Inv(View())
    {
      hide Inv;
      KeepStep(View(), Step.CountStop);
      actives := Inc(actives);
      counted := counted + 1;
    }

    /** The assignment to max, which needs no lock */
    method SetMax(n: nat)
      requires Inv(View()) && Enabled(View(), Step.SetMax(n))
      modifies this
      ensures View() == Apply(old(View()), Step.SetMax(n)) && Inv(View())
    {
      hide Inv;
      KeepStep(View(), Step.SetMax(n));
      max := n;
      peak := if n > peak then n else peak;
    }
  }
}
