/** The in-memory batch queue: producers and one worker that share a deque and a results dictionary. */
module BatchQueue {
  import opened Wrappers

  /** A job of a batch; `failed` marks the ones that already failed at hashing. */
  datatype Job = Job(filename: string, failed: bool)

  /** What anchoring one job came to. */
  datatype Outcome = Anchors(txId: string) | Raises(error: string)

  datatype JobResult = Anchored(filename: string, txId: string) | AnchorFailed(filename: string, error: string)

  datatype Status = Queued | Complete

  datatype Entry = Entry(status: Status, total: nat, processed: nat, results: seq<JobResult>)

  datatype Batch = Batch(id: string, jobs: seq<Job>)

  function ResultOf(job: Job, o: Outcome): JobResult {
    match o
    case Anchors(txId) => Anchored(job.filename, txId)
    case Raises(error) => AnchorFailed(job.filename, error)
  }

  function CountAnchored(rs: seq<JobResult>): nat {
    if rs == [] then 0 else CountAnchored(rs[..|rs| - 1]) + (if rs[|rs| - 1].Anchored? then 1 else 0)
  }

  /** The jobs that reach anchoring. */
  function Live(jobs: seq<Job>): seq<Job> {
    if jobs == [] then []
    else Live(jobs[..|jobs| - 1]) + (if jobs[|jobs| - 1].failed then [] else [jobs[|jobs| - 1]])
  }

  /** One result per job, in order. */
  ghost predicate ResultsFor(rs: seq<JobResult>, jobs: seq<Job>) {
    |rs| == |jobs| && forall k :: 0 <= k < |rs| ==> rs[k].filename == jobs[k].filename
  }

  function AddResult(e: Entry, r: JobResult): Entry {
    e.(results := e.results + [r], processed := e.processed + (if r.Anchored? then 1 else 0))
  }

  // ------------------------------------------------------------ the shared state

  /** The batch the worker holds and the index of its next job. */
  datatype Worker = Idle | Working(batch: Batch, next: nat)

  /** `enqueued` and `completed` record the order of both ends. */
  datatype Sys = Sys(queue: seq<Batch>, results: map<string, Entry>, worker: Worker,
                     enqueued: seq<Batch>, completed: seq<string>)

  /** A producer's call, or the worker going to its next release of the lock; `outcome` is what
      anchoring the current job came to, if there is one. */
  datatype Step = Enqueue(batch: Batch) | Work(outcome: Outcome)

  const INIT := Sys([], map[], Idle, [], [])

  function Apply(s: Sys, step: Step): Sys {
    match step
    case Enqueue(b) =>
      Sys(s.queue + [b], s.results[b.id := Entry(Queued, |b.jobs|, 0, [])], s.worker, s.enqueued + [b], s.completed)
    case Work(outcome) =>
      match s.worker
      case Idle => if s.queue == [] then s else s.(queue := s.queue[1..], worker := Working(s.queue[0], 0))
      case Working(b, i) =>
        if b.id !in s.results then s
        else if i >= |b.jobs| then
          s.(results := s.results[b.id := s.results[b.id].(status := Complete)], worker := Idle, completed := s.completed + [b.id])
        else if b.jobs[i].failed then s.(worker := Working(b, i + 1))
        else
          s.(results := s.results[b.id := AddResult(s.results[b.id], ResultOf(b.jobs[i], outcome))], worker := Working(b, i + 1))
  }

  function Run(s: Sys, steps: seq<Step>): Sys
    decreases |steps|
  {
    if steps == [] then s else Run(Apply(s, steps[0]), steps[1..])
  }

  // ------------------------------------------------------------ invariant

  function Held(w: Worker): nat {
    if w.Idle? then 0 else 1
  }

  ghost predicate Distinct(bs: seq<Batch>) {
    forall j, k :: 0 <= j < k < |bs| ==> bs[j].id != bs[k].id
  }

  /** The entry of a batch whose first i jobs have been handled. */
  ghost predicate EntryOk(e: Entry, b: Batch, i: nat, status: Status) {
    && i <= |b.jobs| && e.status == status && e.total == |b.jobs|
    && e.processed == CountAnchored(e.results)
    && ResultsFor(e.results, Live(b.jobs[..i]))
  }

  /** The batches in the order they came are the completed ones, the held one, the queued ones. */
  ghost predicate Placed(s: Sys) {
    var d, h := |s.completed|, Held(s.worker);
    && Distinct(s.enqueued)
    && d + h + |s.queue| == |s.enqueued|
    && (forall k :: 0 <= k < d ==> s.completed[k] == s.enqueued[k].id)
    && (s.worker.Working? ==> s.worker.batch == s.enqueued[d])
    && (forall k :: 0 <= k < |s.queue| ==> s.queue[k] == s.enqueued[d + h + k])
  }

  /** The number of jobs handled of the batch at place k. */
  function Handled(s: Sys, k: nat): nat
    requires k < |s.enqueued|
  {
    if k < |s.completed| then |s.enqueued[k].jobs|
    else if k == |s.completed| && s.worker.Working? then s.worker.next
    else 0
  }

  ghost predicate BatchOk(s: Sys, k: nat)
    requires k < |s.enqueued|
  {
    && s.enqueued[k].id in s.results
    && EntryOk(s.results[s.enqueued[k].id], s.enqueued[k], Handled(s, k), if k < |s.completed| then Complete else Queued)
  }

  ghost predicate SysOk(s: Sys) {
    Placed(s) && forall k :: 0 <= k < |s.enqueued| ==> BatchOk(s, k)
  }

  /** Producers use fresh batch ids. */
  ghost predicate Fresh(s: Sys, step: Step) {
    step.Enqueue? ==> forall k :: 0 <= k < |s.enqueued| ==> s.enqueued[k].id != step.batch.id
  }

  ghost predicate FreshRun(s: Sys, steps: seq<Step>)
    decreases |steps|
  {
    steps == [] || (Fresh(s, steps[0]) && FreshRun(Apply(s, steps[0]), steps[1..]))
  }

  lemma LiveStep(jobs: seq<Job>, i: nat)
    requires i < |jobs|
    ensures Live(jobs[..i + 1]) == Live(jobs[..i]) + (if jobs[i].failed then [] else [jobs[i]])
  {
    assert jobs[..i + 1][..i] == jobs[..i];
  }

  lemma AddKeeps(e: Entry, b: Batch, i: nat, o: Outcome)
    requires EntryOk(e, b, i, Queued) && i < |b.jobs|
    ensures EntryOk(if b.jobs[i].failed then e else AddResult(e, ResultOf(b.jobs[i], o)), b, i + 1, Queued)
  {
    LiveStep(b.jobs, i);
    var r := ResultOf(b.jobs[i], o);
    assert (e.results + [r])[..|e.results|] == e.results;
  }

  lemma EnqueueKeepsPlaces(s: Sys, b: Batch)
    requires Placed(s) && Fresh(s, Enqueue(b))
    ensures Placed(Apply(s, Enqueue(b)))
  {
    assert Distinct(s.enqueued + [b]);
  }

  lemma TakeKeepsPlaces(s: Sys)
    requires Placed(s) && s.worker.Idle? && s.queue != []
    ensures Placed(s.(queue := s.queue[1..], worker := Working(s.queue[0], 0)))
  {
  }

  lemma HoldKeepsPlaces(s: Sys, s': Sys)
    requires Placed(s) && s' == Sys(s.queue, s'.results, s'.worker, s.enqueued, s.completed)
    requires s.worker.Working? && s'.worker.Working? && s'.worker.batch == s.worker.batch
    ensures Placed(s')
  {
  }

  lemma FinishKeepsPlaces(s: Sys, s': Sys)
    requires Placed(s) && s.worker.Working?
    requires s' == Sys(s.queue, s'.results, Idle, s.enqueued, s.completed + [s.worker.batch.id])
    ensures Placed(s')
  {
  }

  lemma WorkKeepsPlaces(s: Sys, o: Outcome)
    requires Placed(s)
    ensures Placed(Apply(s, Work(o)))
  {
    var s' := Apply(s, Work(o));
    if s'.worker.Idle? && s.worker.Working? {
      FinishKeepsPlaces(s, s');
    } else if s'.worker.Working? && s.worker.Working? {
      HoldKeepsPlaces(s, s');
    } else if s'.worker.Working? {
      TakeKeepsPlaces(s);
    }
  }

  lemma StepKeepsBatch(s: Sys, step: Step, k: nat)
    requires SysOk(s) && Fresh(s, step) && k < |Apply(s, step).enqueued|
    ensures BatchOk(Apply(s, step), k)
  {
    var s', d := Apply(s, step), |s.completed|;
    assert k < |s.enqueued| ==> BatchOk(s, k);
    if step.Work? && s.worker.Working? {
      assert BatchOk(s, d);
      if s.worker.next < |s.worker.batch.jobs| {
        AddKeeps(s.results[s.worker.batch.id], s.worker.batch, s.worker.next, step.outcome);
      }
    }
  }

  lemma StepKeeps(s: Sys, step: Step)
    requires SysOk(s) && Fresh(s, step)
    ensures SysOk(Apply(s, step))
  {
    match step {
      case Enqueue(b) => EnqueueKeepsPlaces(s, b);
      case Work(o) => WorkKeepsPlaces(s, o);
    }
    forall k | 0 <= k < |Apply(s, step).enqueued|
      ensures BatchOk(Apply(s, step), k)
    {
      StepKeepsBatch(s, step, k);
    }
  }

  lemma {:induction false} RunKeeps(s: Sys, steps: seq<Step>)
    requires SysOk(s) && FreshRun(s, steps)
    ensures SysOk(Run(s, steps))
    decreases |steps|
  {
    if steps != [] {
      StepKeeps(s, steps[0]);
      RunKeeps(Apply(s, steps[0]), steps[1..]);
    }
  }

  /** At every release of the lock, whatever producers do: batches complete in the order they were
      queued; `processed` is the number of anchored results; results follow the jobs in order; a
      complete batch has exactly one result for every job that did not fail at hashing. */
  lemma QueueIsFair(steps: seq<Step>, k: nat)
    requires FreshRun(INIT, steps) && k < |Run(INIT, steps).enqueued|
    ensures var s := Run(INIT, steps);
            && (k < |s.completed| ==> s.completed[k] == s.enqueued[k].id)
            && s.enqueued[k].id in s.results
            && var e, jobs := s.results[s.enqueued[k].id], s.enqueued[k].jobs;
               && e.total == |jobs| && e.processed == CountAnchored(e.results)
               && (exists i :: 0 <= i <= |jobs| && ResultsFor(e.results, Live(jobs[..i])))
               && (e.status == Complete <==> k < |s.completed|)
               && (e.status == Complete ==> ResultsFor(e.results, Live(jobs)))
  {
    RunKeeps(INIT, steps);
    var s := Run(INIT, steps);
    var b := s.enqueued[k];
    assert BatchOk(s, k);
    assert b.jobs[..|b.jobs|] == b.jobs;
  }

  // ------------------------------------------------------------ what the results say

  /** Each result is that of its job's anchoring: its transaction id, or its error. */
  ghost predicate Reports(rs: seq<JobResult>, jobs: seq<Job>, outcomes: seq<Outcome>) {
    && |rs| == |outcomes| <= |jobs|
    && forall k :: 0 <= k < |rs| ==>
         && rs[k].filename == jobs[k].filename
         && (outcomes[k].Anchors? <==> rs[k].Anchored?)
         && (outcomes[k].Anchors? ==> rs[k].txId == outcomes[k].txId)
         && (outcomes[k].Raises? ==> rs[k].error == outcomes[k].error)
  }

  function Successes(outcomes: seq<Outcome>): nat {
    if outcomes == [] then 0
    else Successes(outcomes[..|outcomes| - 1]) + (if outcomes[|outcomes| - 1].Anchors? then 1 else 0)
  }

  /** The worker step that anchors a live job of this batch. */
  predicate AnchorsFor(s: Sys, step: Step, id: string) {
    && step.Work? && s.worker.Working? && s.worker.batch.id == id
    && s.worker.next < |s.worker.batch.jobs| && !s.worker.batch.jobs[s.worker.next].failed
  }

  /** The outcomes of those steps over a run. */
  function OutcomesOf(s: Sys, steps: seq<Step>, id: string): seq<Outcome>
    decreases |steps|
  {
    if steps == [] then []
    else (if AnchorsFor(s, steps[0], id) then [steps[0].outcome] else []) + OutcomesOf(Apply(s, steps[0]), steps[1..], id)
  }

  /** A batch's entry tells the outcomes so far. */
  ghost predicate Tells(s: Sys, k: nat, outcomes: seq<Outcome>)
    requires k < |s.enqueued|
  {
    && s.enqueued[k].id in s.results
    && var e := s.results[s.enqueued[k].id];
       Reports(e.results, Live(s.enqueued[k].jobs), outcomes) && e.processed == Successes(outcomes)
  }

  lemma {:induction false} LivePrefix(jobs: seq<Job>, i: nat)
    requires i <= |jobs|
    ensures Live(jobs[..i]) <= Live(jobs)
    decreases |jobs|
  {
    if i == |jobs| {
      assert jobs[..i] == jobs;
    } else {
      LivePrefix(jobs[..|jobs| - 1], i);
      assert jobs[..|jobs| - 1][..i] == jobs[..i];
    }
  }

  /** One more result. */
  lemma MoreReports(e: Entry, b: Batch, i: nat, o: Outcome, outcomes: seq<Outcome>)
    requires EntryOk(e, b, i, Queued) && i < |b.jobs| && !b.jobs[i].failed
    requires Reports(e.results, Live(b.jobs), outcomes) && e.processed == Successes(outcomes)
    ensures var e' := AddResult(e, ResultOf(b.jobs[i], o));
            Reports(e'.results, Live(b.jobs), outcomes + [o]) && e'.processed == Successes(outcomes + [o])
  {
    LiveStep(b.jobs, i);
    LivePrefix(b.jobs, i + 1);
    assert Live(b.jobs)[|e.results|] == b.jobs[i];
    assert (outcomes + [o])[..|outcomes|] == outcomes;
  }

  lemma StepTells(s: Sys, step: Step, k: nat, outcomes: seq<Outcome>)
    requires SysOk(s) && Fresh(s, step) && k < |s.enqueued| && Tells(s, k, outcomes)
    ensures k < |Apply(s, step).enqueued| && Apply(s, step).enqueued[k] == s.enqueued[k]
    ensures Tells(Apply(s, step), k, outcomes + (if AnchorsFor(s, step, s.enqueued[k].id) then [step.outcome] else []))
  {
    var id, d := s.enqueued[k].id, |s.completed|;
    if step.Work? && s.worker.Working? {
      assert BatchOk(s, d) && s.worker.batch == s.enqueued[d];
      if AnchorsFor(s, step, id) {
        assert k == d;
        MoreReports(s.results[id], s.worker.batch, s.worker.next, step.outcome, outcomes);
      } else {
        assert outcomes + [] == outcomes;
      }
    } else {
      assert outcomes + [] == outcomes;
    }
  }

  lemma OutcomesStep(s: Sys, steps: seq<Step>, id: string, outcomes: seq<Outcome>)
    requires steps != []
    ensures var more := if AnchorsFor(s, steps[0], id) then [steps[0].outcome] else [];
            outcomes + more + OutcomesOf(Apply(s, steps[0]), steps[1..], id) == outcomes + OutcomesOf(s, steps, id)
  {
  }

  lemma {:induction false} RunTells(s: Sys, steps: seq<Step>, k: nat, outcomes: seq<Outcome>)
    requires SysOk(s) && FreshRun(s, steps) && k < |s.enqueued| && Tells(s, k, outcomes)
    ensures k < |Run(s, steps).enqueued| && Run(s, steps).enqueued[k] == s.enqueued[k]
    ensures Tells(Run(s, steps), k, outcomes + OutcomesOf(s, steps, s.enqueued[k].id))
    decreases |steps|
  {
    if steps == [] {
      assert outcomes + [] == outcomes;
    } else {
      var id := s.enqueued[k].id;
      StepTells(s, steps[0], k, outcomes);
      StepKeeps(s, steps[0]);
      OutcomesStep(s, steps, id, outcomes);
      RunTells(Apply(s, steps[0]), steps[1..], k, outcomes + (if AnchorsFor(s, steps[0], id) then [steps[0].outcome] else []));
    }
  }

  lemma NewEntryTells(m: Sys, b: Batch)
    requires SysOk(m) && Fresh(m, Enqueue(b))
    ensures var s := Apply(m, Enqueue(b));
            SysOk(s) && |m.enqueued| < |s.enqueued| && s.enqueued[|m.enqueued|] == b && Tells(s, |m.enqueued|, [])
  {
    StepKeeps(m, Enqueue(b));
  }

  lemma QueuedTells(m: Sys, b: Batch, after: seq<Step>)
    requires SysOk(m) && Fresh(m, Enqueue(b)) && FreshRun(Apply(m, Enqueue(b)), after)
    ensures var s := Apply(m, Enqueue(b));
            var end, k := Run(s, after), |m.enqueued|;
            SysOk(end) && k < |end.enqueued| && end.enqueued[k] == b && Tells(end, k, OutcomesOf(s, after, b.id))
  {
    var s := Apply(m, Enqueue(b));
    NewEntryTells(m, b);
    RunTells(s, after, |m.enqueued|, []);
    RunKeeps(s, after);
    assert [] + OutcomesOf(s, after, b.id) == OutcomesOf(s, after, b.id);
  }

  /** Over every run, from the moment a batch is queued: the results are those of the worker steps that anchored
      its live jobs, in their order, each with the transaction id or the error of its step, and `processed` is
      the number of those steps that anchored. */
  lemma ResultsAreOutcomes(before: seq<Step>, b: Batch, after: seq<Step>)
    requires FreshRun(INIT, before) && Fresh(Run(INIT, before), Enqueue(b))
    requires FreshRun(Apply(Run(INIT, before), Enqueue(b)), after)
    ensures var s := Apply(Run(INIT, before), Enqueue(b));
            var end, outcomes := Run(s, after), OutcomesOf(s, after, b.id);
            && b.id in end.results
            && Reports(end.results[b.id].results, Live(b.jobs), outcomes)
            && end.results[b.id].processed == Successes(outcomes)
            && (end.results[b.id].status == Complete ==> |outcomes| == |Live(b.jobs)|)
  {
    RunKeeps(INIT, before);
    var m := Run(INIT, before);
    QueuedTells(m, b, after);
    var end, k := Run(Apply(m, Enqueue(b)), after), |m.enqueued|;
    assert BatchOk(end, k) && b.jobs[..|b.jobs|] == b.jobs;
  }

  // ------------------------------------------------------------ progress

  function WorkOf(bs: seq<Batch>): nat {
    if bs == [] then 0 else WorkOf(bs[..|bs| - 1]) + |bs[|bs| - 1].jobs| + 2
  }

  /** Worker steps until the batch at place k of the arrival order is complete: one to take each batch,
      one for each job, one to complete. */
  function Ahead(s: Sys, k: nat): nat
    requires k < |s.enqueued|
  {
    var d := |s.completed|;
    if k < d then 0
    else match s.worker
      case Idle => WorkOf(s.enqueued[d..k + 1])
      case Working(b, i) =>
        (if i < |b.jobs| then |b.jobs| - i else 0) + 1 + (if k > d then WorkOf(s.enqueued[d + 1..k + 1]) else 0)
  }

  lemma {:induction false} WorkOfCons(bs: seq<Batch>)
    requires bs != []
    ensures WorkOf(bs) == |bs[0].jobs| + 2 + WorkOf(bs[1..])
  {
    if |bs| > 1 {
      WorkOfCons(bs[..|bs| - 1]);
      assert bs[..|bs| - 1][1..] == bs[1..][..|bs| - 2];
    } else {
      assert bs[..0] == [] && bs[1..] == [];
    }
  }

  lemma AheadIsZero(s: Sys, k: nat)
    requires k < |s.enqueued|
    ensures Ahead(s, k) == 0 <==> k < |s.completed|
  {
    if k >= |s.completed| {
      WorkOfCons(s.enqueued[|s.completed|..k + 1]);
    }
  }

  lemma EnqueueProgress(s: Sys, b: Batch, k: nat)
    requires k < |s.enqueued|
    ensures Ahead(Apply(s, Enqueue(b)), k) == Ahead(s, k)
  {
    var s', d := Apply(s, Enqueue(b)), |s.completed|;
    if k >= d {
      assert s'.enqueued[d..k + 1] == s.enqueued[d..k + 1];
      assert k > d ==> s'.enqueued[d + 1..k + 1] == s.enqueued[d + 1..k + 1];
    }
  }

  lemma WorkProgress(s: Sys, o: Outcome, k: nat)
    requires SysOk(s) && k < |s.enqueued|
    ensures Apply(s, Work(o)).enqueued == s.enqueued
    ensures Ahead(Apply(s, Work(o)), k) == if Ahead(s, k) > 0 then Ahead(s, k) - 1 else 0
  {
    var d := |s.completed|;
    if k >= d {
      assert BatchOk(s, d);
      WorkOfCons(s.enqueued[d..k + 1]);
      assert s.enqueued[d..k + 1][1..] == s.enqueued[d + 1..k + 1];
      assert k == d ==> s.enqueued[d + 1..k + 1] == [];
    }
  }

  /** A producer cannot delay a batch, and every worker step brings it one step closer. */
  lemma StepProgress(s: Sys, step: Step, k: nat)
    requires SysOk(s) && k < |s.enqueued|
    ensures k < |Apply(s, step).enqueued| && Apply(s, step).enqueued[k] == s.enqueued[k]
    ensures Ahead(Apply(s, step), k) == if step.Work? && Ahead(s, k) > 0 then Ahead(s, k) - 1 else Ahead(s, k)
  {
    match step
    case Enqueue(b) => EnqueueProgress(s, b, k);
    case Work(o) => WorkProgress(s, o, k);
  }

  function WorkSteps(steps: seq<Step>): nat {
    if steps == [] then 0 else (if steps[0].Work? then 1 else 0) + WorkSteps(steps[1..])
  }

  lemma {:induction false} RunProgress(s: Sys, steps: seq<Step>, k: nat)
    requires SysOk(s) && FreshRun(s, steps) && k < |s.enqueued|
    ensures k < |Run(s, steps).enqueued| && Run(s, steps).enqueued[k] == s.enqueued[k]
    ensures Ahead(Run(s, steps), k) == if WorkSteps(steps) >= Ahead(s, k) then 0 else Ahead(s, k) - WorkSteps(steps)
    decreases |steps|
  {
    if steps != [] {
      StepProgress(s, steps[0], k);
      StepKeeps(s, steps[0]);
      RunProgress(Apply(s, steps[0]), steps[1..], k);
    }
  }

  /** Every queued batch completes: it is complete in exactly those runs that give the worker as many
      steps as its distance from the front, however many batches producers add meanwhile. */
  lemma EveryBatchCompletes(s: Sys, steps: seq<Step>, k: nat)
    requires SysOk(s) && FreshRun(s, steps) && k < |s.enqueued|
    ensures var s' := Run(s, steps);
            s.enqueued[k].id in s'.results &&
            (s'.results[s.enqueued[k].id].status == Complete <==> WorkSteps(steps) >= Ahead(s, k))
  {
    RunProgress(s, steps, k);
    RunKeeps(s, steps);
    var s' := Run(s, steps);
    assert BatchOk(s', k);
    AheadIsZero(s', k);
  }

  // ------------------------------------------------------------ the service object

  lemma {:induction false} RunAppend(s: Sys, steps: seq<Step>, step: Step)
    ensures Run(s, steps + [step]) == Apply(Run(s, steps), step)
    decreases |steps|
  {
    if steps == [] {
      assert [step][1..] == [];
    } else {
      assert (steps + [step])[1..] == steps[1..] + [step];
      RunAppend(Apply(s, steps[0]), steps[1..], step);
    }
  }

  /** One round of the worker loop: take the batch, handle each of its jobs, complete it. */
  function Round(outcomes: seq<Outcome>): seq<Step> {
    Begin(outcomes) + [Work(Raises(""))]
  }

  function Begin(outcomes: seq<Outcome>): seq<Step> {
    if outcomes == [] then [Work(Raises(""))]
    else Begin(outcomes[..|outcomes| - 1]) + [Work(outcomes[|outcomes| - 1])]
  }

  /** The outcomes that come from live jobs. */
  function LiveOutcomes(jobs: seq<Job>, outcomes: seq<Outcome>): seq<Outcome>
    requires |outcomes| == |jobs|
  {
    if jobs == [] then []
    else
      var n := |jobs| - 1;
      LiveOutcomes(jobs[..n], outcomes[..n]) + (if jobs[n].failed then [] else [outcomes[n]])
  }

  /** The entry tells exactly the outcomes of the live jobs. */
  ghost predicate Tell(e: Entry, jobs: seq<Job>, outcomes: seq<Outcome>)
    requires |outcomes| == |jobs|
  {
    && |LiveOutcomes(jobs, outcomes)| == |Live(jobs)|
    && Reports(e.results, Live(jobs), LiveOutcomes(jobs, outcomes))
    && e.processed == Successes(LiveOutcomes(jobs, outcomes))
  }

  lemma TellStep(e: Entry, jobs: seq<Job>, outcomes: seq<Outcome>, i: nat)
    requires i < |jobs| == |outcomes| && Tell(e, jobs[..i], outcomes[..i])
    ensures Tell(if jobs[i].failed then e else AddResult(e, ResultOf(jobs[i], outcomes[i])), jobs[..i + 1], outcomes[..i + 1])
  {
    LiveStep(jobs, i);
    assert jobs[..i + 1][..i] == jobs[..i] && outcomes[..i + 1][..i] == outcomes[..i];
    var os, os' := LiveOutcomes(jobs[..i], outcomes[..i]), LiveOutcomes(jobs[..i + 1], outcomes[..i + 1]);
    if jobs[i].failed {
      assert os' == os + [] == os;
    } else {
      assert os' == os + [outcomes[i]] && os'[..|os|] == os;
    }
  }

  /** The worker's steps up to job i of the batch it took. */
  lemma {:induction false} BeginTells(s: Sys, outcomes: seq<Outcome>, i: nat)
    requires s.worker == Idle && s.queue != [] && s.queue[0].id in s.results && |outcomes| == |s.queue[0].jobs| && i <= |outcomes|
    requires s.results[s.queue[0].id].results == [] && s.results[s.queue[0].id].processed == 0
    ensures var s', b := Run(s, Begin(outcomes[..i])), s.queue[0];
            s'.worker == Working(b, i) && b.id in s'.results && Tell(s'.results[b.id], b.jobs[..i], outcomes[..i])
  {
    var b := s.queue[0];
    if i == 0 {
      RunAppend(s, [], Work(Raises("")));
      assert [] + [Work(Raises(""))] == Begin(outcomes[..0]);
    } else {
      BeginTells(s, outcomes, i - 1);
      assert outcomes[..i][..i - 1] == outcomes[..i - 1];
      RunAppend(s, Begin(outcomes[..i - 1]), Work(outcomes[i - 1]));
      TellStep(Run(s, Begin(outcomes[..i - 1])).results[b.id], b.jobs, outcomes, i - 1);
    }
  }

  /** After a round the entry tells the outcomes of the live jobs. */
  lemma RoundTells(s: Sys, outcomes: seq<Outcome>)
    requires s.worker == Idle && s.queue != [] && s.queue[0].id in s.results && |outcomes| == |s.queue[0].jobs|
    ensures var b, s' := s.queue[0], Run(s, Round(outcomes));
            s.results[b.id].results == [] && s.results[b.id].processed == 0 ==>
              b.id in s'.results && s'.results[b.id].status == Complete && Tell(s'.results[b.id], b.jobs, outcomes)
  {
    var b := s.queue[0];
    if s.results[b.id].results == [] && s.results[b.id].processed == 0 {
      BeginTells(s, outcomes, |outcomes|);
      assert outcomes[..|outcomes|] == outcomes && b.jobs[..|outcomes|] == b.jobs;
      RunAppend(s, Begin(outcomes), Work(Raises("")));
    }
  }

  /** The module's globals. The ghost fields are what the interleaved model records besides. */
  class Service {
    var queue: seq<Batch>
    var results: map<string, Entry>
    ghost var worker: Worker
    ghost var enqueued: seq<Batch>
    ghost var completed: seq<string>

    ghost function State(): Sys
      reads this
    {
      Sys(queue, results, worker, enqueued, completed)
    }

    constructor ()
      ensures State() == INIT
    {
      queue, results := [], map[];
      worker, enqueued, completed := Idle, [], [];
    }

    method QueueBatch(b: Batch)
      modifies this
      ensures State() == Apply(old(State()), Enqueue(b))
    {
      results := results[b.id := Entry(Queued, |b.jobs|, 0, [])];
      queue := queue + [b];
      enqueued := enqueued + [b];
    }

    /** One round when no producer runs is a run of the interleaved model that leaves the worker idle. */
    method WorkOnce(outcomes: seq<Outcome>) returns (worked: bool)
      requires worker == Idle
      requires queue != [] ==> queue[0].id in results && |outcomes| == |queue[0].jobs|
      modifies this
      ensures worked <==> old(queue) != []
      ensures State() == if worked then Run(old(State()), Round(outcomes)) else old(State())
      ensures worker == Idle && (worked ==> completed == old(completed) + [old(queue)[0].id])
      ensures worked && old(results)[old(queue)[0].id].results == [] && old(results)[old(queue)[0].id].processed == 0 ==>
                var b := old(queue)[0];
                b.id in results && results[b.id].status == Complete && Tell(results[b.id], b.jobs, outcomes)
    {
      if queue == [] {
        return false;
      }
      ghost var was := State();
      var b := queue[0];
      queue, worker := queue[1..], Working(b, 0);
      RunAppend(was, [], Work(Raises("")));
      for i := 0 to |b.jobs|
        invariant State() == Run(was, Begin(outcomes[..i]))
        invariant worker == Working(b, i) && b.id in results && completed == old(completed)
      {
        RunAppend(was, Begin(outcomes[..i]), Work(outcomes[i]));
        assert outcomes[..i + 1][..i] == outcomes[..i];
        worker := Working(b, i + 1);
        if b.jobs[i].failed {
          continue;
        }
        var e := results[b.id];
        match outcomes[i] {
          case Anchors(txId) =>
            results := results[b.id := e.(processed := e.processed + 1, results := e.results + [Anchored(b.jobs[i].filename, txId)])];
          case Raises(error) =>
            results := results[b.id := e.(results := e.results + [AnchorFailed(b.jobs[i].filename, error)])];
        }
      }
      assert outcomes[..|b.jobs|] == outcomes;
      RoundTells(was, outcomes);
      RunAppend(was, Begin(outcomes), Work(Raises("")));
      results := results[b.id := results[b.id].(status := Complete)];
      worker, completed := Idle, completed + [b.id];
      return true;
    }
  }
}
