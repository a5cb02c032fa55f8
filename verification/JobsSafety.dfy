/** What every interleaving and every crash keeps. The row updates of the runner name only an id,
    never an old status, so each of these facts holds through the global invariant `Inv` alone. */
module JobsSafety {
  import opened Options
  import opened Sequences
  import opened Jobs

  // ---- The invariant, in parts ----

  /** Where an id can be: being submitted, in the channel, or already dispatched. */
  ghost predicate Placed(s: State) {
    && Distinct(s.queue) && |s.queue| <= QUEUE_CAPACITY && Distinct(s.dispatched)
    && (forall id :: id in s.queue ==> QueuedRow(s.rows, id) && id !in s.submitting && id !in s.dispatched)
    && (forall id :: id in s.submitting ==> QueuedRow(s.rows, id) && id !in s.dispatched)
    && (forall id :: id in s.dispatched ==> id in s.rows)
    && (!s.up ==> s.queue == [] && s.submitting == {} && s.workers == [] && s.dispatched == [])
    && (s.up ==> |s.workers| == s.poolSize)
  }

  /** What a worker knows about the row of the id it holds. */
  ghost predicate WorkerOk(s: State, w: Worker) {
    !w.Idle? ==>
      && w.id in s.dispatched && w.id in s.rows && w.id !in s.dropped && w.id !in s.stranded
      && (w.Fetched? || w.Loaded? ==> s.rows[w.id].status == Queued)
      && (PastMark(w) ==> s.rows[w.id].status == Queued || s.rows[w.id].status == Running)
      && (w.Loaded? ==> w.kind == s.rows[w.id].kind)
      && (PastMark(w) ==> s.rows[w.id].kind in s.handlers)
      && (w.Marked? ==> s.calls[w.id] + (if s.rows[w.id].status == Queued then 1 else 0) <= s.lostMarks[w.id])
  }

  ghost predicate WorkersOk(s: State) {
    forall i :: 0 <= i < |s.workers| ==> WorkerOk(s, s.workers[i])
  }

  ghost predicate Exclusive(s: State) {
    forall i, j :: 0 <= i < j < |s.workers| && !s.workers[i].Idle? && !s.workers[j].Idle?
      ==> s.workers[i].id != s.workers[j].id
  }

  ghost predicate Holds(w: Worker, id: JobId) {
    PastMark(w) && w.id == id
  }

  ghost predicate Owned(workers: seq<Worker>, id: JobId) {
    exists i :: 0 <= i < |workers| && Holds(workers[i], id)
  }

  predicate RunningRow(rows: map<JobId, Job>, id: JobId) {
    id in rows && rows[id].status == Running
  }

  ghost predicate StrandedRun(s: State) {
    forall id :: id in s.stranded ==> RunningRow(s.rows, id)
  }

  /** A running row has a worker, unless a lost write stranded it. */
  ghost predicate RunningOwned(s: State) {
    s.up ==>
      forall id {:trigger Owned(s.workers, id)} ::
        RunningRow(s.rows, id) && id !in s.stranded ==> Owned(s.workers, id)
  }

  ghost predicate DroppedQueued(s: State) {
    forall id :: id in s.dropped ==> QueuedRow(s.rows, id) && id in s.dispatched
  }

  /** Invocations are paid for by the row leaving 'queued' or by a lost mark. */
  ghost predicate CallsPaid(s: State) {
    && (forall id :: id in s.calls ==> id in s.rows)
    && (forall id :: id in s.rows ==>
         s.calls[id] <= s.lostMarks[id] + (if s.rows[id].status == Queued then 0 else 1))
  }

  /** The shape of a row in each status. */
  ghost predicate RowShape(job: Job) {
    && 0 <= job.progress <= 100
    && (job.status == Queued ==> job.startedAt == None && job.endedAt == None && job.error == None)
    && (job.status == Running ==> job.startedAt.Some? && job.endedAt == None && job.error == None)
    && (Terminal(job.status) ==> job.endedAt.Some?)
    && (job.status == Failed || job.status == Cancelled ==> job.error.Some?)
    && (job.status == Succeeded ==> job.error == None)
  }

  ghost predicate RowsShaped(s: State) {
    forall id :: id in s.rows ==> RowShape(s.rows[id])
  }

  ghost predicate Inv(s: State) {
    && s.poolSize >= 1
    && Placed(s) && WorkersOk(s) && Exclusive(s) && StrandedRun(s) && RunningOwned(s) && DroppedQueued(s) && CallsPaid(s) && RowsShaped(s)
  }

  // ---- Every step keeps it ----

  lemma {:induction false} OfferAllPrefix(queue: seq<JobId>, ids: seq<JobId>)
    requires |queue| <= QUEUE_CAPACITY
    ensures var room := QUEUE_CAPACITY - |queue|;
      OfferAll(queue, ids) == queue + (if |ids| <= room then ids else ids[..room])
    decreases |ids|
  {
    if ids != [] {
      OfferAllPrefix(Offer(queue, ids[0]), ids[1..]);
      if |queue| < QUEUE_CAPACITY {
        assert ids == [ids[0]] + ids[1..];
      }
    }
  }

  predicate RowStep(step: Step) {
    step.Insert? || step.SetProgress? || step.AppendLog?
  }

  predicate WriteStep(step: Step) {
    step.Reject? || step.Mark? || step.Finish?
  }

  lemma PlacedMemoryStep(s: State, step: Step)
    requires Placed(s) && Enabled(s, step) && !RowStep(step) && !WriteStep(step)
    ensures Placed(Apply(s, step))
  {
    match step
    case Start(_, _, fetched) =>
      OfferAllPrefix([], fetched);
      assert forall id :: id in OfferAll([], fetched) ==> id in fetched;
    case Receive(_) =>
      assert s.queue == [s.queue[0]] + s.queue[1..];
      assert s.queue[0] in s.queue;
    case _ =>
  }

  lemma PlacedRowStep(s: State, step: Step)
    requires Placed(s) && Enabled(s, step) && RowStep(step)
    ensures Placed(Apply(s, step))
  {
  }

  lemma PlacedWriteStep(s: State, step: Step)
    requires Placed(s) && WorkersOk(s) && Enabled(s, step) && WriteStep(step)
    ensures Placed(Apply(s, step))
  {
    assert WorkerOk(s, s.workers[step.w]);
  }

  lemma ExclusiveStep(s: State, step: Step)
    requires Exclusive(s) && Placed(s) && WorkersOk(s) && Enabled(s, step)
    ensures Exclusive(Apply(s, step))
  {
    if step.Receive? {
      assert s.queue[0] in s.queue;
      forall i | 0 <= i < |s.workers| && !s.workers[i].Idle?
        ensures s.workers[i].id != s.queue[0]
      {
        assert WorkerOk(s, s.workers[i]);
      }
    }
  }

  lemma WorkersOkReceive(s: State, step: Step)
    requires WorkersOk(s) && Placed(s) && StrandedRun(s) && DroppedQueued(s) && Enabled(s, step) && step.Receive?
    ensures WorkersOk(Apply(s, step))
  {
    assert s.queue[0] in s.queue;
  }

  lemma WorkersOkMemoryStep(s: State, step: Step)
    requires WorkersOk(s) && Exclusive(s) && Enabled(s, step) && !RowStep(step) && !WriteStep(step) && !step.Receive?
    ensures WorkersOk(Apply(s, step))
  {
    if step.Load? || step.Invoke? || step.Return? {
      assert WorkerOk(s, s.workers[step.w]);
    }
  }

  /** What a worker knows survives when only another row changes, or its own in the same status. */
  lemma WorkersOkRowStep(s: State, step: Step)
    requires WorkersOk(s) && Placed(s) && Enabled(s, step)
    requires RowStep(step)
    ensures WorkersOk(Apply(s, step))
  {
  }

  lemma OtherWorkerOk(s: State, step: Step, i: nat)
    requires Enabled(s, step) && WriteStep(step) && i < |s.workers| && i != step.w
    requires WorkerOk(s, s.workers[i])
    requires !s.workers[i].Idle? ==> s.workers[i].id != s.workers[step.w].id
    ensures WorkerOk(Apply(s, step), s.workers[i])
  {
  }

  lemma OwnWorkerOk(s: State, step: Step)
    requires Enabled(s, step) && WriteStep(step) && WorkerOk(s, s.workers[step.w]) && CallsPaid(s)
    ensures WorkerOk(Apply(s, step), Apply(s, step).workers[step.w])
  {
  }

  lemma OthersStay(s: State, step: Step)
    requires Enabled(s, step) && WriteStep(step)
    ensures |Apply(s, step).workers| == |s.workers|
    ensures forall i :: 0 <= i < |s.workers| && i != step.w ==> Apply(s, step).workers[i] == s.workers[i]
  {
  }

  lemma WorkersOkWriteStep(s: State, step: Step)
    requires WorkersOk(s) && Exclusive(s) && CallsPaid(s) && Enabled(s, step)
    requires WriteStep(step)
    ensures WorkersOk(Apply(s, step))
  {
    hide WorkerOk, Apply, CallsPaid;
    var t := Apply(s, step);
    OthersStay(s, step);
    forall i | 0 <= i < |t.workers|
      ensures WorkerOk(t, t.workers[i])
    {
      assert WorkerOk(s, s.workers[i]);
      if i == step.w {
        OwnWorkerOk(s, step);
      } else {
        OtherWorkerOk(s, step, i);
      }
    }
  }

  lemma StrandedStep(s: State, step: Step)
    requires StrandedRun(s) && WorkersOk(s) && Enabled(s, step)
    ensures StrandedRun(Apply(s, step))
  {
  }

  lemma DroppedStep(s: State, step: Step)
    requires DroppedQueued(s) && WorkersOk(s) && Placed(s) && Enabled(s, step)
    ensures DroppedQueued(Apply(s, step))
  {
    if step.Load? || step.Reject? || step.Mark? || step.Finish? {
      assert WorkerOk(s, s.workers[step.w]);
    }
  }

  lemma CallsPaidRowStep(s: State, step: Step)
    requires CallsPaid(s) && Enabled(s, step) && !step.Invoke? && !WriteStep(step)
    ensures CallsPaid(Apply(s, step))
  {
    if step.Insert? {
      assert step.id !in s.rows ==> step.id !in s.calls;
    }
  }

  lemma CallsPaidWriteStep(s: State, step: Step)
    requires CallsPaid(s) && WorkersOk(s) && Enabled(s, step) && WriteStep(step)
    ensures CallsPaid(Apply(s, step))
  {
    assert WorkerOk(s, s.workers[step.w]);
  }

  lemma CallsPaidInvoke(s: State, step: Step)
    requires CallsPaid(s) && WorkersOk(s) && Enabled(s, step) && step.Invoke?
    ensures CallsPaid(Apply(s, step))
  {
  }

  lemma RowsShapedStep(s: State, step: Step)
    requires RowsShaped(s) && WorkersOk(s) && Enabled(s, step)
    ensures RowsShaped(Apply(s, step))
  {
    if WriteStep(step) {
      assert WorkerOk(s, s.workers[step.w]);
    }
  }

  /** Ownership of the running rows survives a step of worker `w` (or of none) that starts no other row. */
  lemma KeepOwned(s: State, t: State, w: nat)
    requires s.up && t.up && RunningOwned(s) && |s.workers| == |t.workers|
    requires forall i :: 0 <= i < |s.workers| && i != w ==> s.workers[i] == t.workers[i]
    requires forall id {:trigger RunningRow(t.rows, id)} ::
      RunningRow(t.rows, id) && id !in t.stranded && !(w < |t.workers| && Holds(t.workers[w], id))
      ==> RunningRow(s.rows, id) && id !in s.stranded && !(w < |s.workers| && Holds(s.workers[w], id))
    ensures RunningOwned(t)
  {
    forall id | RunningRow(t.rows, id) && id !in t.stranded
      ensures Owned(t.workers, id)
    {
      if w < |t.workers| && Holds(t.workers[w], id) {
      } else {
        assert id in t.rows;
        assert Owned(s.workers, id);
        var i :| 0 <= i < |s.workers| && Holds(s.workers[i], id);
        assert Holds(t.workers[i], id);
      }
    }
  }

  lemma RunningOwnedStep(s: State, step: Step)
    requires RunningOwned(s) && Enabled(s, step)
    ensures RunningOwned(Apply(s, step))
  {
    match step
    case Crash =>
    case Register(_) =>
    case Start(_, _, _) =>
    case Insert(_, _, _, _, _) => KeepOwned(s, Apply(s, step), |s.workers|);
    case Send(_) => KeepOwned(s, Apply(s, step), |s.workers|);
    case SetProgress(_, _) => KeepOwned(s, Apply(s, step), |s.workers|);
    case AppendLog(_, _) => KeepOwned(s, Apply(s, step), |s.workers|);
    case _ => KeepOwned(s, Apply(s, step), step.w);
  }

  /** Every step keeps the invariant. */
  lemma InvStep(s: State, step: Step)
    requires Inv(s) && Enabled(s, step)
    ensures Inv(Apply(s, step))
  {
    hide Placed, WorkersOk, Exclusive, StrandedRun, RunningOwned, DroppedQueued, CallsPaid, RowsShaped;
    ExclusiveStep(s, step);
    if RowStep(step) {
      PlacedRowStep(s, step);
      WorkersOkRowStep(s, step);
    } else if WriteStep(step) {
      PlacedWriteStep(s, step);
      WorkersOkWriteStep(s, step);
    } else if step.Receive? {
      PlacedMemoryStep(s, step);
      WorkersOkReceive(s, step);
    } else {
      PlacedMemoryStep(s, step);
      WorkersOkMemoryStep(s, step);
    }
    StrandedStep(s, step);
    RunningOwnedStep(s, step);
    DroppedStep(s, step);
    if step.Invoke? {
      CallsPaidInvoke(s, step);
    } else if WriteStep(step) {
      CallsPaidWriteStep(s, step);
    } else {
      CallsPaidRowStep(s, step);
    }
    RowsShapedStep(s, step);
  }
}
