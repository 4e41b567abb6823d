/** The job splitter of worker.cpp and worker/mvm.cpp: a master fills a queue,
    nodes drain it under a lock, and the master polls until all have finished.
    Each locked section and each read of a shared flag is one step. */
module JobSplitter {

  /** Where a node stands: about to dequeue, running a job, out of its loop, and
      marked as finished. */
  datatype Node = Draining | Working(job: string) | Stopped | Finished

  /** Where the master stands: in the user's start function; starting nodes;
      reading the finished flags, so far up to node i; past perform. */
  datatype Phase = Filling | Spawning | Polling(i: nat, flag: bool) | Returned

  datatype State = State(
    limit: nat,         // s_max, or the number of cores
    jobs: seq<string>,  // everything enqueued
    queue: seq<string>,
    taken: seq<string>, // everything dequeued
    total: nat,
    progress: nat,
    cores: nat,
    nodes: seq<Node>,
    phase: Phase)

  datatype Step =
    | Enqueue(job: string)
    | Begin
    | Spawn
    | Dequeue(n: nat)
    | Increment(n: nat)
    | Finish(n: nat)
    | Poll

  function Init(limit: nat): State
  {
    State(limit, [], [], [], 0, 0, 0, [], Filling)
  }

  predicate Enabled(s: State, step: Step)
  {
    match step
    case Enqueue(_) => s.phase.Filling?
    case Begin => s.phase.Filling?
    case Spawn => s.phase.Spawning? && |s.nodes| < s.cores
    case Dequeue(n) => n < |s.nodes| && s.nodes[n].Draining?
    case Increment(n) => n < |s.nodes| && s.nodes[n].Working?
    case Finish(n) => n < |s.nodes| && s.nodes[n].Stopped?
    case Poll => s.phase.Polling? || (s.phase.Spawning? && |s.nodes| == s.cores)
  }

  /** node::dequeue, and the test of the drain loop: the empty string ends it. */
  function Dequeued(s: State, n: nat): State
    requires n < |s.nodes|
  {
    if s.queue == [] then s.(nodes := s.nodes[n := Stopped])
    else
      var value := s.queue[0];
      s.(queue := s.queue[1..],
         taken := s.taken + [value],
         nodes := s.nodes[n := if value == "" then Stopped else Working(value)])
  }

  function Polled(s: State): State
  {
    match s.phase
    case Polling(i, flag) =>
      if i < |s.nodes| then s.(phase := Polling(i + 1, flag && s.nodes[i].Finished?))
      else if flag then s.(phase := Returned)
      else s.(phase := Polling(0, true))
    case _ => s.(phase := Polling(0, true))
  }

  function Apply(s: State, step: Step): State
    requires Enabled(s, step)
  {
    match step
    case Enqueue(job) => s.(jobs := s.jobs + [job], queue := s.queue + [job])
    case Begin =>
      s.(cores := if |s.queue| < s.limit then |s.queue| else s.limit, total := |s.queue|, phase := Spawning)
    case Spawn => s.(nodes := s.nodes + [Draining])
    case Dequeue(n) => Dequeued(s, n)
    case Increment(n) => s.(nodes := s.nodes[n := Draining], progress := s.progress + 1)
    case Finish(n) => s.(nodes := s.nodes[n := Finished])
    case Poll => Polled(s)
  }

  // ---------- counting ----------

  function Busy(nodes: seq<Node>): nat
  {
    if nodes == [] then 0 else (if nodes[0].Working? then 1 else 0) + Busy(nodes[1..])
  }

  function Empties(jobs: seq<string>): nat
  {
    if jobs == [] then 0 else Empties(jobs[..|jobs| - 1]) + (if jobs[|jobs| - 1] == "" then 1 else 0)
  }

  lemma {:induction false} BusyUpdate(nodes: seq<Node>, n: nat, x: Node)
    requires n < |nodes|
    ensures Busy(nodes[n := x]) + (if nodes[n].Working? then 1 else 0) == Busy(nodes) + (if x.Working? then 1 else 0)
  {
    var us := nodes[n := x];
    if n == 0 {
      assert us[1..] == nodes[1..];
    } else {
      assert us[1..] == nodes[1..][n - 1 := x];
      BusyUpdate(nodes[1..], n - 1, x);
    }
  }

  lemma {:induction false} BusyAppend(nodes: seq<Node>)
    ensures Busy(nodes + [Draining]) == Busy(nodes)
  {
    if nodes == [] {
      assert nodes + [Draining] == [Draining];
    } else {
      assert (nodes + [Draining])[1..] == nodes[1..] + [Draining];
      BusyAppend(nodes[1..]);
    }
  }

  lemma {:induction false} NoneBusy(nodes: seq<Node>)
    requires forall x :: x in nodes ==> x.Finished?
    ensures Busy(nodes) == 0
  {
    if nodes != [] {
      assert nodes[0] in nodes;
      NoneBusy(nodes[1..]);
    }
  }

  lemma {:induction false} EmptiesBound(jobs: seq<string>)
    ensures Empties(jobs) <= |jobs|
    ensures Empties(jobs) == 0 <==> "" !in jobs
  {
    if jobs != [] {
      EmptiesBound(jobs[..|jobs| - 1]);
      assert jobs == jobs[..|jobs| - 1] + [jobs[|jobs| - 1]];
    }
  }

  // ---------- the invariant ----------

  /** Jobs leave the queue in the order they entered it, each once; every job
      taken is counted, in work, or was the empty string. */
  ghost predicate JobsKept(s: State)
  {
    && s.taken + s.queue == s.jobs
    && s.progress + Busy(s.nodes) + Empties(s.taken) == |s.taken|
  }

  /** Only the end of the queue or an empty job takes a node out of its loop. */
  ghost predicate StopReason(s: State)
  {
    (exists n :: 0 <= n < |s.nodes| && (s.nodes[n].Stopped? || s.nodes[n].Finished?))
      ==> s.queue == [] || Empties(s.taken) > 0
  }

  ghost predicate Started(s: State)
  {
    && |s.nodes| <= s.cores
    && (s.phase.Filling? ==> s.nodes == [] && s.taken == [])
    && (!s.phase.Filling? ==> s.total == |s.jobs| && s.cores == if |s.jobs| < s.limit then |s.jobs| else s.limit)
  }

  /** What the master has seen stays true: a flag once set is never cleared. */
  ghost predicate Seen(s: State)
  {
    && (s.phase.Polling? || s.phase.Returned? ==> |s.nodes| == s.cores)
    && (s.phase.Polling? ==> s.phase.i <= |s.nodes|)
    && (s.phase.Polling? && s.phase.flag ==> forall k :: 0 <= k < s.phase.i ==> s.nodes[k].Finished?)
    && (s.phase.Returned? ==> forall k :: 0 <= k < |s.nodes| ==> s.nodes[k].Finished?)
  }

  ghost predicate Inv(s: State)
  {
    JobsKept(s) && StopReason(s) && Started(s) && Seen(s)
  }

  lemma EmptiesSnoc(taken: seq<string>, value: string)
    ensures Empties(taken + [value]) == Empties(taken) + (if value == "" then 1 else 0)
  {
    assert (taken + [value])[..|taken|] == taken;
  }

  lemma KeepDequeue(s: State, n: nat)
    requires Inv(s) && Enabled(s, Dequeue(n))
    ensures Inv(Dequeued(s, n))
  {
    hide Busy, Empties;
    var t := Dequeued(s, n);
    BusyUpdate(s.nodes, n, t.nodes[n]);
    if s.queue != [] {
      EmptiesSnoc(s.taken, s.queue[0]);
      assert t.taken + t.queue == s.taken + s.queue;
    }
  }

  lemma KeepNode(s: State, step: Step)
    requires Inv(s) && Enabled(s, step) && (step.Increment? || step.Finish?)
    ensures Inv(Apply(s, step))
  {
    hide Busy, Empties;
    BusyUpdate(s.nodes, step.n, Apply(s, step).nodes[step.n]);
  }

  lemma KeepMaster(s: State, step: Step)
    requires Inv(s) && Enabled(s, step) && (step.Enqueue? || step.Begin? || step.Spawn? || step.Poll?)
    ensures Inv(Apply(s, step))
  {
    hide Busy, Empties;
    BusyAppend(s.nodes);
    if step.Enqueue? {
      assert s.taken + (s.queue + [step.job]) == s.jobs + [step.job];
    }
  }

  lemma KeepStep(s: State, step: Step)
    requires Inv(s) && Enabled(s, step)
    ensures Inv(Apply(s, step))
  {
    hide Inv;
    match step
    case Dequeue(n) => KeepDequeue(s, n);
    case Increment(_) => KeepNode(s, step);
    case Finish(_) => KeepNode(s, step);
    case _ => KeepMaster(s, step);
  }

  // ---------- whole runs ----------

  predicate CanRun(s: State, steps: seq<Step>)
    decreases |steps|
  {
    steps == [] || (Enabled(s, steps[0]) && CanRun(Apply(s, steps[0]), steps[1..]))
  }

  function After(s: State, steps: seq<Step>): State
    requires CanRun(s, steps)
    decreases |steps|
  {
    if steps == [] then s else After(Apply(s, steps[0]), steps[1..])
  }

  lemma {:induction false} RunKeeps(s: State, steps: seq<Step>)
    requires Inv(s) && CanRun(s, steps)
    ensures Inv(After(s, steps)) && After(s, steps).limit == s.limit && s.taken <= After(s, steps).taken
    decreases |steps|
  {
    hide Inv, Apply;
    if steps != [] {
      StepGrows(s, steps[0]);
      KeepStep(s, steps[0]);
      RunKeeps(Apply(s, steps[0]), steps[1..]);
    }
  }

  lemma StepGrows(s: State, step: Step)
    requires Enabled(s, step)
    ensures Apply(s, step).limit == s.limit && s.taken <= Apply(s, step).taken
  {
  }

  /** In every reachable state: jobs are dequeued in order, each by one node, progress stays
      within the total, and there are no more nodes than cores or jobs. */
  lemma SplitterSafety(limit: nat, steps: seq<Step>)
    requires CanRun(Init(limit), steps)
    ensures var s := After(Init(limit), steps);
      && s.taken + s.queue == s.jobs
      && s.progress + Busy(s.nodes) + Empties(s.taken) == |s.taken|
      && s.progress <= |s.jobs|
      && (!s.phase.Filling? ==> s.progress <= s.total == |s.jobs|)
      && |s.nodes| <= limit && |s.nodes| <= |s.jobs|
  {
    hide CanRun, After, Busy, Empties;
    assert Busy([]) == 0 && Empties([]) == 0 by { NoneBusy([]); EmptiesBound([]); }
    RunKeeps(Init(limit), steps);
  }

  /** When perform returns, there was a node for every core or for every job, every node has
      finished, and progress has reached the
      total exactly when no job was the empty string; then the queue is empty. */
  lemma PerformReturns(limit: nat, steps: seq<Step>)
    requires limit >= 1 && CanRun(Init(limit), steps) && After(Init(limit), steps).phase.Returned?
    ensures var s := After(Init(limit), steps);
      && (s.progress == s.total <==> "" !in s.jobs)
      && ("" !in s.jobs ==> s.queue == [] && s.taken == s.jobs)
      && (forall x :: x in s.nodes ==> x.Finished?)
      && (|s.nodes| == limit || |s.nodes| == |s.jobs|)
  {
    hide CanRun, After, Busy, Empties;
    assert Busy([]) == 0 && Empties([]) == 0 by { NoneBusy([]); EmptiesBound([]); }
    RunKeeps(Init(limit), steps);
    var s := After(Init(limit), steps);
    assert forall x :: x in s.nodes ==> x.Finished?;
    NoneBusy(s.nodes);
    EmptiesBound(s.taken);
    if "" !in s.jobs {
      assert "" !in s.taken by { assert forall i :: 0 <= i < |s.taken| ==> s.taken[i] == s.jobs[i]; }
      if s.jobs != [] {
        assert s.nodes[0].Finished?;
      }
    }
  }

  lemma RunStep(s: State, step: Step, rest: seq<Step>, end: State)
    requires Enabled(s, step) && CanRun(Apply(s, step), rest) && After(Apply(s, step), rest) == end
    ensures CanRun(s, [step] + rest) && After(s, [step] + rest) == end
  {
    assert ([step] + rest)[1..] == rest;
  }

  /** One node takes the empty job and stops, and the master returns with the other
      job still queued and no progress at all. */
  lemma EmptyJobStops()
    ensures exists steps :: CanRun(Init(1), steps) && Abandoned(After(Init(1), steps))
  {
    var s0 := Init(1);
    var s1 := Apply(s0, Enqueue(""));
    var s2 := Apply(s1, Enqueue("a"));
    assert s2.queue == ["", "a"];
    var s3 := Apply(s2, Begin);
    var s4 := Apply(s3, Spawn);
    assert s4.nodes == [Draining];
    var s5 := Apply(s4, Dequeue(0));
    assert s5.nodes == [Stopped] && s5.queue == ["a"];
    var s6 := Apply(s5, Finish(0));
    var s7 := Apply(s6, Poll);
    var s8 := Apply(s7, Poll);
    var s9 := Apply(s8, Poll);
    assert Abandoned(s9);
    hide Apply;
    assert After(s9, []) == s9;
    hide *;
    RunStep(s8, Poll, [], s9);
    var r8 := [Poll] + [];
    RunStep(s7, Poll, r8, s9);
    var r7 := [Poll] + r8;
    RunStep(s6, Poll, r7, s9);
    var r6 := [Poll] + r7;
    RunStep(s5, Finish(0), r6, s9);
    var r5 := [Finish(0)] + r6;
    RunStep(s4, Dequeue(0), r5, s9);
    var r4 := [Dequeue(0)] + r5;
    RunStep(s3, Spawn, r4, s9);
    var r3 := [Spawn] + r4;
    RunStep(s2, Begin, r3, s9);
    var r2 := [Begin] + r3;
    RunStep(s1, Enqueue("a"), r2, s9);
    var r1 := [Enqueue("a")] + r2;
    RunStep(s0, Enqueue(""), r1, s9);
  }

  predicate Abandoned(s: State)
  {
    s.phase.Returned? && s.progress == 0 < s.total && s.queue == ["a"]
  }

  /** Without a core nothing is done at all. */
  lemma NoCores(steps: seq<Step>)
    requires CanRun(Init(0), steps)
    ensures After(Init(0), steps).taken == []
  {
    hide CanRun, After, Busy, Empties;
    assert Busy([]) == 0 && Empties([]) == 0 by { NoneBusy([]); EmptiesBound([]); }
    NoNodes(Init(0), steps);
  }

  lemma {:induction false} NoNodes(s: State, steps: seq<Step>)
    requires s.limit == 0 && s.cores == 0 && s.nodes == [] && s.taken == [] && CanRun(s, steps)
    ensures After(s, steps).taken == []
    decreases |steps|
  {
    if steps != [] {
      NoNodes(Apply(s, steps[0]), steps[1..]);
    }
  }

  // ---------- the objects ----------

  /** The shared part of a worker; each method is one locked section. */
  class Worker {
    var queue: seq<string>
    var progress: nat
    var total: nat
    ghost var jobs: seq<string>
    ghost var taken: seq<string>

    /** The shared fields are those of the state. */
    ghost predicate Shows(s: State)
      reads this
    {
      queue == s.queue && progress == s.progress && total == s.total && jobs == s.jobs && taken == s.taken
    }

    constructor (ghost limit: nat)
      ensures Shows(Init(limit))
    {
      queue, progress, total := [], 0, 0;
      jobs, taken := [], [];
    }

    /** worker::enqueue */
    method Enqueue(value: string, ghost s: State)
      requires Shows(s) && Enabled(s, Step.Enqueue(value))
      modifies this
      ensures Shows(Apply(s, Step.Enqueue(value)))
    {
      queue := queue + [value];
      jobs := jobs + [value];
    }

    /** node::dequeue */
    method Dequeue(ghost n: nat, ghost s: State) returns (value: string)
      requires Shows(s) && Enabled(s, Step.Dequeue(n))
      modifies this
      ensures Shows(Apply(s, Step.Dequeue(n)))
      ensures Apply(s, Step.Dequeue(n)).nodes[n] == if value == "" then Stopped else Working(value)
      ensures value != "" ==> old(queue) == [value] + queue
    {
      if queue == [] {
        return "";
      }
      value := queue[0];
      queue := queue[1..];
      taken := taken + [value];
    }

    /** worker::increment */
    method Increment(ghost n: nat, ghost s: State)
      requires Shows(s) && Enabled(s, Step.Increment(n))
      modifies this
      ensures Shows(Apply(s, Step.Increment(n)))
    {
      progress := progress + 1;
    }

    /** The start of the section PERFORM of worker::run: how many nodes to start. */
    method Begin(limit: nat, ghost s: State) returns (cores: nat)
      requires Shows(s) && Enabled(s, Step.Begin) && limit == s.limit
      modifies this
      ensures Shows(Apply(s, Step.Begin)) && cores == Apply(s, Step.Begin).cores
    {
      cores := limit;
      if |queue| < cores {
        cores := |queue|;
      }
      total := |queue|;
    }
  }
}
