/** Theorems about whole runs of the job runner: any interleaving, any number of crashes. */
module JobsRuns {
  import opened Options
  import opened Sequences
  import opened Jobs
  import opened JobsSafety

  lemma {:induction false} RunInv(states: seq<State>, steps: seq<Step>, n: nat)
    requires IsRun(states, steps) && n < |states|
    ensures Inv(states[n])
  {
    if n > 0 {
      RunInv(states, steps, n - 1);
      InvStep(states[n - 1], steps[n - 1]);
    }
  }

  // ---- Dispatch: at most once per epoch, at most poolSize at a time ----

  ghost predicate HeldBy(s: State, w: int, id: JobId) {
    0 <= w < |s.workers| && !s.workers[w].Idle? && s.workers[w].id == id
  }

  /** In every reachable state the channel holds at most 256 distinct ids, each of a queued row and
      none of them held by a worker; and no two workers hold the same id. */
  lemma ChannelAndWorkersDisjoint(states: seq<State>, steps: seq<Step>, n: nat)
    requires IsRun(states, steps) && n < |states|
    ensures Distinct(states[n].queue) && |states[n].queue| <= 256
    ensures forall id :: id in states[n].queue ==> QueuedRow(states[n].rows, id)
    ensures forall id, w :: id in states[n].queue ==> !HeldBy(states[n], w, id)
    ensures forall id, v, w :: HeldBy(states[n], v, id) && HeldBy(states[n], w, id) ==> v == w
  {
    RunInv(states, steps, n);
    forall id, w | HeldBy(states[n], w, id)
      ensures id !in states[n].queue
    {
      assert WorkerOk(states[n], states[n].workers[w]);
    }
  }

  ghost predicate SameEpoch(steps: seq<Step>, m: nat, n: nat) {
    m <= n <= |steps| && forall k :: m <= k < n ==> !steps[k].Crash?
  }

  /** Within one epoch the list of dispatched ids only grows. */
  lemma {:induction false} DispatchedGrows(states: seq<State>, steps: seq<Step>, m: nat, n: nat)
    requires IsRun(states, steps) && SameEpoch(steps, m, n)
    ensures states[m].dispatched <= states[n].dispatched
    decreases n
  {
    if m < n {
      DispatchedGrows(states, steps, m, n - 1);
      assert Enabled(states[n - 1], steps[n - 1]) && states[n] == Apply(states[n - 1], steps[n - 1]);
    }
  }

  /** Two receives of one epoch yield two different jobs: no job is dispatched twice in an epoch. */
  lemma DispatchedOncePerEpoch(states: seq<State>, steps: seq<Step>, m: nat, n: nat)
    requires IsRun(states, steps) && SameEpoch(steps, m, n) && m < n < |steps|
    requires steps[m].Receive? && steps[n].Receive?
    ensures states[m].queue != [] && states[n].queue != []
    ensures states[m].queue[0] != states[n].queue[0]
  {
    assert Enabled(states[m], steps[m]) && states[m + 1] == Apply(states[m], steps[m]);
    assert Enabled(states[n], steps[n]);
    assert SameEpoch(steps, m + 1, n);
    DispatchedGrows(states, steps, m + 1, n);
    assert states[m].queue[0] in states[m + 1].dispatched;
    RunInv(states, steps, n);
    assert states[n].queue[0] in states[n].queue;
  }

  /** The ids of the workers that are past the mark. */
  function MarkedIds(workers: seq<Worker>): (ids: set<JobId>)
    ensures |ids| <= |workers|
    ensures forall i :: 0 <= i < |workers| && PastMark(workers[i]) ==> workers[i].id in ids
  {
    if workers == [] then {}
    else
      var rest := MarkedIds(workers[1..]);
      assert forall i :: 1 <= i < |workers| ==> workers[i] == workers[1..][i - 1];
      if PastMark(workers[0]) then {workers[0].id} + rest else rest
  }

  lemma SubsetCard(a: set<JobId>, b: set<JobId>)
    requires a <= b
    ensures |a| <= |b|
  {
    assert b == a + (b - a);
  }

  /** After Start at most poolSize rows are 'running', not counting rows that a lost final write (or
      a lost reconciliation) stranded in this epoch. */
  lemma RunningBound(states: seq<State>, steps: seq<Step>, n: nat)
    requires IsRun(states, steps) && n < |states| && states[n].up
    ensures |RunningIds(states[n].rows)| <= states[n].poolSize + |states[n].stranded|
  {
    RunInv(states, steps, n);
    var s := states[n];
    var marked := MarkedIds(s.workers);
    forall id | id in RunningIds(s.rows)
      ensures id in marked + s.stranded
    {
      assert RunningRow(s.rows, id);
      if id !in s.stranded {
        assert Owned(s.workers, id);
      }
    }
    SubsetCard(RunningIds(s.rows), marked + s.stranded);
    assert |marked + s.stranded| <= |marked| + |s.stranded|;
  }

  lemma {:induction false} NothingStranded(states: seq<State>, steps: seq<Step>, m: nat, n: nat)
    requires IsRun(states, steps) && SameEpoch(steps, m, n) && m < n
    requires steps[m].Start? && steps[m].reconciled
    requires forall k :: m <= k < n && steps[k].Finish? ==> steps[k].written
    ensures states[n].stranded == {} && states[n].up
    decreases n
  {
    assert Enabled(states[n - 1], steps[n - 1]) && states[n] == Apply(states[n - 1], steps[n - 1]);
    if m + 1 < n {
      NothingStranded(states, steps, m, n - 1);
    }
  }

  /** After a Start whose UPDATE took effect, and as long as no final write is lost, at most poolSize
      rows are 'running'. */
  lemma RunningBoundWithoutLoss(states: seq<State>, steps: seq<Step>, m: nat, n: nat)
    requires IsRun(states, steps) && SameEpoch(steps, m, n) && m < n
    requires steps[m].Start? && steps[m].reconciled
    requires forall k :: m <= k < n && steps[k].Finish? ==> steps[k].written
    ensures |RunningIds(states[n].rows)| <= states[n].poolSize
  {
    NothingStranded(states, steps, m, n);
    RunningBound(states, steps, n);
  }

  // ---- A finished job never changes ----

  lemma FinalStep(s: State, step: Step, id: JobId)
    requires WorkersOk(s) && Enabled(s, step) && id in s.rows && Terminal(s.rows[id].status)
    ensures var t := Apply(s, step);
      id in t.rows && t.rows[id].(progress := 0, log := "") == s.rows[id].(progress := 0, log := "")
  {
  }

  /** A row that reaches succeeded, failed or cancelled keeps that status, its error and all its
      times for the rest of the run, although no UPDATE checks the old status. */
  lemma {:induction false} TerminalForever(states: seq<State>, steps: seq<Step>, m: nat, n: nat, id: JobId)
    requires IsRun(states, steps) && m <= n < |states|
    requires id in states[m].rows && Terminal(states[m].rows[id].status)
    ensures id in states[n].rows
    ensures states[n].rows[id].(progress := 0, log := "") == states[m].rows[id].(progress := 0, log := "")
    decreases n
  {
    if m < n {
      TerminalForever(states, steps, m, n - 1, id);
      RunInv(states, steps, n - 1);
      FinalStep(states[n - 1], steps[n - 1], id);
    }
  }

  // ---- The handler runs at most once ----

  /** How often the handler of `id` was invoked in the first n steps. */
  ghost function Invocations(states: seq<State>, steps: seq<Step>, n: nat, id: JobId): nat
    requires IsRun(states, steps) && n <= |steps|
  {
    if n == 0 then 0
    else
      Invocations(states, steps, n - 1, id) +
      (if steps[n - 1].Invoke? && Enabled(states[n - 1], steps[n - 1]) && states[n - 1].workers[steps[n - 1].w].id == id then 1 else 0)
  }

  /** How often the write that marks `id` running was lost in the first n steps. */
  ghost function LostMarks(states: seq<State>, steps: seq<Step>, n: nat, id: JobId): nat
    requires IsRun(states, steps) && n <= |steps|
  {
    if n == 0 then 0
    else
      LostMarks(states, steps, n - 1, id) +
      (if steps[n - 1].Mark? && !steps[n - 1].written && Enabled(states[n - 1], steps[n - 1])
          && states[n - 1].workers[steps[n - 1].w].id == id then 1 else 0)
  }

  lemma {:induction false} HistoryCounts(states: seq<State>, steps: seq<Step>, n: nat, id: JobId)
    requires IsRun(states, steps) && n <= |steps|
    ensures states[n].calls[id] == Invocations(states, steps, n, id)
    ensures states[n].lostMarks[id] == LostMarks(states, steps, n, id)
  {
    if n > 0 {
      HistoryCounts(states, steps, n - 1, id);
      assert Enabled(states[n - 1], steps[n - 1]) && states[n] == Apply(states[n - 1], steps[n - 1]);
    }
  }

  /** Over a whole run, crashes included, a job's handler is invoked at most once more than its mark
      was lost: at most once when the write before the call always takes effect. */
  lemma HandlerAtMostOnce(states: seq<State>, steps: seq<Step>, n: nat, id: JobId)
    requires IsRun(states, steps) && n <= |steps|
    ensures Invocations(states, steps, n, id) <= 1 + LostMarks(states, steps, n, id)
    ensures QueuedRow(states[n].rows, id) ==> Invocations(states, steps, n, id) <= LostMarks(states, steps, n, id)
  {
    RunInv(states, steps, n);
    HistoryCounts(states, steps, n, id);
    if id !in states[n].rows {
      assert id !in states[n].calls;
    }
  }

  /** Every mark of this job takes effect. */
  ghost predicate MarksWritten(states: seq<State>, steps: seq<Step>, n: nat, id: JobId)
    requires IsRun(states, steps) && n <= |steps|
  {
    forall k :: 0 <= k < n && steps[k].Mark? && HeldBy(states[k], steps[k].w, id) ==> steps[k].written
  }

  lemma {:induction false} NoLostMarks(states: seq<State>, steps: seq<Step>, n: nat, id: JobId)
    requires IsRun(states, steps) && n <= |steps| && MarksWritten(states, steps, n, id)
    ensures LostMarks(states, steps, n, id) == 0
  {
    if n > 0 {
      NoLostMarks(states, steps, n - 1, id);
    }
  }

  /** When every mark of the job takes effect, its handler is never invoked twice, and never while the
      row is still 'queued'. */
  lemma HandlerAtMostOnceWithoutLoss(states: seq<State>, steps: seq<Step>, n: nat, id: JobId)
    requires IsRun(states, steps) && n <= |steps| && MarksWritten(states, steps, n, id)
    ensures Invocations(states, steps, n, id) <= 1
    ensures QueuedRow(states[n].rows, id) ==> Invocations(states, steps, n, id) == 0
  {
    NoLostMarks(states, steps, n, id);
    HandlerAtMostOnce(states, steps, n, id);
  }

  // ---- Exactly when the handler can be invoked again ----

  ghost predicate MarkedBy(s: State, w: int, id: JobId) {
    0 <= w < |s.workers| && s.workers[w] == Marked(id)
  }

  /** The row is still 'queued', or a worker is between the mark of the job and its handler. */
  ghost predicate Invocable(s: State, id: JobId) {
    QueuedRow(s.rows, id) || exists w :: MarkedBy(s, w, id)
  }

  lemma SpentStep(s: State, step: Step, id: JobId)
    requires WorkersOk(s) && Enabled(s, step) && id in s.rows && !Invocable(s, id)
    ensures id in Apply(s, step).rows && !Invocable(Apply(s, step), id)
    ensures Apply(s, step).calls[id] == s.calls[id]
  {
    var t := Apply(s, step);
    if step.Invoke? {
      assert !MarkedBy(s, step.w, id);
    }
    if step.Mark? {
      assert WorkerOk(s, s.workers[step.w]);
    }
    forall w
      ensures !MarkedBy(t, w, id)
    {
      assert !MarkedBy(s, w, id);
    }
  }

  lemma {:induction false} SpentForever(states: seq<State>, steps: seq<Step>, n: nat, id: JobId)
    requires IsPath(states, steps) && n < |states| && Inv(states[0]) && id in states[0].rows && !Invocable(states[0], id)
    ensures Inv(states[n]) && id in states[n].rows && !Invocable(states[n], id) && states[n].calls[id] == states[0].calls[id]
  {
    hide Invocable, Apply, WorkersOk;
    if n > 0 {
      SpentForever(states, steps, n - 1, id);
      InvStep(states[n - 1], steps[n - 1]);
      SpentStep(states[n - 1], steps[n - 1], id);
    }
  }

  lemma ExtendPath(states: seq<State>, steps: seq<Step>, step: Step) returns (longer: seq<State>, more: seq<Step>)
    requires IsPath(states, steps) && Enabled(states[|steps|], step)
    ensures IsPath(longer, more) && more == steps + [step]
    ensures longer == states + [Apply(states[|steps|], step)]
  {
    longer, more := states + [Apply(states[|steps|], step)], steps + [step];
    forall i | 0 <= i < |more|
      ensures Enabled(longer[i], more[i]) && longer[i + 1] == Apply(longer[i], more[i])
    {
      if i < |steps| {
        assert longer[i] == states[i] && longer[i + 1] == states[i + 1] && more[i] == steps[i];
      }
    }
  }

  /** After a crash and a restart with the right handler, worker 0 holds the queued job. */
  lemma Redispatch(states: seq<State>, steps: seq<Step>, id: JobId) returns (longer: seq<State>, more: seq<Step>)
    requires IsPath(states, steps) && QueuedRow(states[|steps|].rows, id) && states[|steps|].poolSize >= 1
    ensures IsPath(longer, more) && longer[0] == states[0]
    ensures var s, t := states[|steps|], longer[|more|];
      && t.up && t.poolSize == s.poolSize && |t.workers| == t.poolSize && t.workers[0] == Fetched(id)
      && id in t.rows && t.rows[id] == s.rows[id] && t.rows[id].kind in t.handlers
      && t.calls == s.calls && t.lostMarks == s.lostMarks
  {
    longer, more := ExtendPath(states, steps, Crash);
    longer, more := ExtendPath(longer, more, Register(states[|steps|].rows[id].kind));
    OfferAllPrefix([], [id]);
    longer, more := ExtendPath(longer, more, Start(0, true, [id]));
    longer, more := ExtendPath(longer, more, Receive(0));
  }

  /** A queued job can be dispatched, loaded, marked and handed to its handler; when the mark is lost it
      is still queued afterwards. */
  lemma InvokeQueued(states: seq<State>, steps: seq<Step>, id: JobId, marked: bool) returns (longer: seq<State>, more: seq<Step>)
    requires IsPath(states, steps) && QueuedRow(states[|steps|].rows, id) && states[|steps|].poolSize >= 1
    ensures IsPath(longer, more) && longer[0] == states[0]
    ensures var s, t := states[|steps|], longer[|more|];
      && t.poolSize == s.poolSize && t.calls == s.calls + multiset{id}
      && t.lostMarks == s.lostMarks + (if marked then multiset{} else multiset{id})
      && (!marked ==> QueuedRow(t.rows, id))
  {
    longer, more := Redispatch(states, steps, id);
    longer, more := ExtendPath(longer, more, Load(0, true));
    longer, more := ExtendPath(longer, more, Mark(0, 0, marked));
    longer, more := ExtendPath(longer, more, Invoke(0));
  }

  /** The handler of a submitted job can still be invoked, in some continuation, exactly when its row is
      'queued' or a worker is about to call it. */
  lemma InvokedAgainExactly(s: State, id: JobId)
    requires Inv(s) && id in s.rows
    ensures Invocable(s, id) <==>
      exists states: seq<State>, steps: seq<Step> :: IsPath(states, steps) && states[0] == s && states[|steps|].calls[id] > s.calls[id]
  {
    if Invocable(s, id) {
      var states, steps := [s], [];
      if QueuedRow(s.rows, id) {
        states, steps := InvokeQueued(states, steps, id, true);
      } else {
        var w :| MarkedBy(s, w, id);
        assert s.up;
        states, steps := ExtendPath(states, steps, Invoke(w));
      }
      assert states[|steps|].calls[id] > s.calls[id];
    } else {
      forall states: seq<State>, steps: seq<Step> | IsPath(states, steps) && states[0] == s
        ensures states[|steps|].calls[id] == s.calls[id]
      {
        SpentForever(states, steps, |steps|, id);
      }
    }
  }

  /** The job waits outside the channel: a full channel refused it, or Get failed and dropped it. */
  ghost predicate Waiting(s: State, id: JobId) {
    && s.up && QueuedRow(s.rows, id) && id !in s.queue && id !in s.submitting
    && forall w :: !HeldBy(s, w, id)
  }

  lemma WaitingStep(s: State, step: Step, id: JobId)
    requires Enabled(s, step) && !step.Crash? && Waiting(s, id)
    ensures Waiting(Apply(s, step), id) && Apply(s, step).calls[id] == s.calls[id]
  {
    var t := Apply(s, step);
    forall w
      ensures !HeldBy(t, w, id)
    {
      assert !HeldBy(s, w, id);
    }
    if step.Invoke? || step.Mark? || step.Reject? || step.Finish? {
      assert !HeldBy(s, step.w, id);
    }
  }

  /** A job whose row is queued but which is neither in the channel nor held is not run before the next
      restart, whatever else happens. */
  lemma {:induction false} WaitsForRestart(states: seq<State>, steps: seq<Step>, n: nat, id: JobId)
    requires IsPath(states, steps) && n < |states| && Waiting(states[0], id)
    requires forall k :: 0 <= k < n ==> !steps[k].Crash?
    ensures Waiting(states[n], id) && states[n].calls[id] == states[0].calls[id]
  {
    hide Waiting, Apply;
    if n > 0 {
      WaitsForRestart(states, steps, n - 1, id);
      WaitingStep(states[n - 1], steps[n - 1], id);
    }
  }

  /** So do the jobs that a full channel refuses at the end of Submit, and those that a worker drops
      because Get fails. */
  lemma RefusedOrDroppedWaits(s: State, step: Step, id: JobId)
    requires Inv(s) && Enabled(s, step)
    requires (step == Send(id) && |s.queue| == QUEUE_CAPACITY) || (step.Load? && !step.ok && s.workers[step.w].id == id)
    ensures Waiting(Apply(s, step), id)
  {
    var t := Apply(s, step);
    forall w
      ensures !HeldBy(t, w, id)
    {
      assert 0 <= w < |s.workers| ==> WorkerOk(s, s.workers[w]);
    }
    if step.Load? {
      assert WorkerOk(s, s.workers[step.w]);
    }
  }

  lemma {:induction false} LoseMarks(n: nat) returns (states: seq<State>, steps: seq<Step>)
    ensures IsRun(states, steps)
    ensures var last := states[|steps|];
      last.poolSize == 1 && QueuedRow(last.rows, "j") && last.calls["j"] == n && last.lostMarks["j"] == n
  {
    if n == 0 {
      states, steps := [State(1, {}, map[], false, [], {}, [], [], {}, {}, multiset{}, multiset{})], [];
      states, steps := ExtendPath(states, steps, Start(0, true, []));
      states, steps := ExtendPath(states, steps, Insert("j", "k", "{}", "op", 1));
    } else {
      states, steps := LoseMarks(n - 1);
      states, steps := InvokeQueued(states, steps, "j", false);
    }
  }

  /** The bound of HandlerAtMostOnce is reached: for every number n there is a run in which n marks are
      lost and the handler is invoked n + 1 times. */
  lemma LostMarksRunAgain(n: nat) returns (states: seq<State>, steps: seq<Step>)
    ensures IsRun(states, steps)
    ensures LostMarks(states, steps, |steps|, "j") == n
    ensures Invocations(states, steps, |steps|, "j") == n + 1
  {
    states, steps := LoseMarks(n);
    states, steps := InvokeQueued(states, steps, "j", true);
    HistoryCounts(states, steps, |steps|, "j");
  }

  // ---- The registered handlers are those of this epoch ----

  /** Step k registers the kind, and no crash has followed before step n. */
  ghost predicate RegisteredAt(steps: seq<Step>, n: nat, k: nat, kind: string) {
    k < n <= |steps| && steps[k] == Register(kind) && SameEpoch(steps, k, n)
  }

  ghost predicate Registered(steps: seq<Step>, n: nat, kind: string) {
    exists k: nat :: RegisteredAt(steps, n, k, kind)
  }

  lemma RegisteredSnoc(steps: seq<Step>, n: nat, k: nat, kind: string)
    requires 0 < n <= |steps|
    ensures RegisteredAt(steps, n, k, kind) <==>
      !steps[n - 1].Crash? && (RegisteredAt(steps, n - 1, k, kind) || (k == n - 1 && steps[k] == Register(kind)))
  {
  }

  lemma HandlersStep(s: State, step: Step, kind: string)
    requires Enabled(s, step)
    ensures kind in Apply(s, step).handlers <==> !step.Crash? && (kind in s.handlers || step == Register(kind))
  {
  }

  lemma RegisteredStep(steps: seq<Step>, n: nat, kind: string)
    requires 0 < n <= |steps|
    ensures Registered(steps, n, kind) <==> !steps[n - 1].Crash? && (Registered(steps, n - 1, kind) || steps[n - 1] == Register(kind))
  {
    hide RegisteredAt;
    if Registered(steps, n, kind) {
      var k: nat :| RegisteredAt(steps, n, k, kind);
      RegisteredSnoc(steps, n, k, kind);
    }
    if Registered(steps, n - 1, kind) {
      var k: nat :| RegisteredAt(steps, n - 1, k, kind);
      RegisteredSnoc(steps, n, k, kind);
    }
    RegisteredSnoc(steps, n, n - 1, kind);
  }

  /** A kind has a handler exactly when it was registered since the last crash: handlers are memory. */
  lemma {:induction false} HandlersOfEpoch(states: seq<State>, steps: seq<Step>, n: nat, kind: string)
    requires IsRun(states, steps) && n <= |steps|
    ensures kind in states[n].handlers <==> Registered(steps, n, kind)
  {
    hide Apply, Enabled;
    if n > 0 {
      HandlersOfEpoch(states, steps, n - 1, kind);
      HandlersStep(states[n - 1], steps[n - 1], kind);
      hide Registered;
      RegisteredStep(steps, n, kind);
    }
  }

  // ---- Rows: shape, restart, log ----

  /** In every reachable state every row has the shape of its status. */
  lemma RowsShapedAlways(states: seq<State>, steps: seq<Step>, n: nat, id: JobId)
    requires IsRun(states, steps) && n < |states| && id in states[n].rows
    ensures RowShape(states[n].rows[id])
  {
    RunInv(states, steps, n);
  }

  /** What the row of a submitted job says: the values given to Submit. */
  predicate SubmittedAs(job: Job, kind: string, params: string, author: string, now: int) {
    job.kind == kind && job.params == params && job.createdBy == author && job.createdAt == now
  }

  /** The values given to Submit stand in the row for ever. */
  lemma SubmittedForever(states: seq<State>, steps: seq<Step>, k: nat, n: nat)
    requires IsRun(states, steps) && k < n < |states| && steps[k].Insert? && steps[k].id !in states[k].rows
    ensures steps[k].id in states[n].rows
    ensures SubmittedAs(states[n].rows[steps[k].id], steps[k].kind, steps[k].params, steps[k].author, steps[k].now)
    ensures n == k + 1 ==> states[n].rows[steps[k].id] == Job(steps[k].kind, steps[k].params, Queued, 0, "", None, steps[k].author, steps[k].now, None, None)
  {
    assert Enabled(states[k], steps[k]) && states[k + 1] == Apply(states[k], steps[k]);
    LogOnlyGrows(states, steps, k + 1, n, steps[k].id);
  }

  /** The clock of the last mark of the job that took effect. */
  ghost function MarkedAt(states: seq<State>, steps: seq<Step>, n: nat, id: JobId): Option<int>
    requires n <= |steps| <= |states|
  {
    if n == 0 then None
    else if steps[n - 1].Mark? && steps[n - 1].written && HeldBy(states[n - 1], steps[n - 1].w, id) then Some(steps[n - 1].now)
    else MarkedAt(states, steps, n - 1, id)
  }

  /** How a job ended. */
  datatype Ending = Ending(status: Status, error: Option<string>, at: int)

  /** What step k ends the job with, if it does: a last write, a refusal, or a reconciling restart. */
  ghost function EndsAt(s: State, step: Step, id: JobId): Option<Ending> {
    match step
    case Finish(w, now, written) =>
      if !written || !HeldBy(s, w, id) || !s.workers[w].Finishing? then None
      else
        (match s.workers[w].outcome
         case Returned => Some(Ending(Succeeded, None, now))
         case Errored(message) => Some(Ending(Failed, Some(message), now))
         case Interrupted(message) => Some(Ending(Cancelled, Some(message), now)))
    case Reject(w, now, written) =>
      if !written || !HeldBy(s, w, id) || id !in s.rows then None
      else Some(Ending(Failed, Some("no handler for kind " + s.rows[id].kind), now))
    case Start(now, reconciled, _) =>
      if reconciled && id in s.rows && s.rows[id].status == Running then Some(Ending(Failed, Some("agent restart"), now)) else None
    case _ => None
  }

  /** The ending of the job in the first n steps, if it has ended. */
  ghost function EndingOf(states: seq<State>, steps: seq<Step>, n: nat, id: JobId): Option<Ending>
    requires n <= |steps| <= |states|
  {
    if n == 0 then None
    else if EndsAt(states[n - 1], steps[n - 1], id).Some? then EndsAt(states[n - 1], steps[n - 1], id)
    else EndingOf(states, steps, n - 1, id)
  }

  /** The row tells when the job started. */
  ghost predicate TellsStart(s: State, id: JobId, started: Option<int>) {
    started == if id in s.rows then s.rows[id].startedAt else None
  }

  /** The row tells how the job ended, if it has. */
  ghost predicate TellsEnding(s: State, id: JobId, ending: Option<Ending>) {
    && (ending == None && id in s.rows ==>
         !Terminal(s.rows[id].status) && s.rows[id].endedAt == None && s.rows[id].error == None)
    && (ending.Some? ==>
         id in s.rows && s.rows[id].status == ending.value.status && s.rows[id].error == ending.value.error
         && s.rows[id].endedAt == Some(ending.value.at))
  }

  lemma TellsStartStep(s: State, step: Step, id: JobId, started: Option<int>)
    requires WorkersOk(s) && Enabled(s, step) && TellsStart(s, id, started)
    ensures TellsStart(Apply(s, step), id, if step.Mark? && step.written && HeldBy(s, step.w, id) then Some(step.now) else started)
  {
    if step.Mark? {
      assert WorkerOk(s, s.workers[step.w]);
    }
  }

  /** Steps without a write to a row that has a worker. */
  lemma TellsEndingKept(s: State, step: Step, id: JobId, ending: Option<Ending>)
    requires WorkersOk(s) && Enabled(s, step) && TellsEnding(s, id, ending) && !WriteStep(step) && !step.Start?
    ensures EndsAt(s, step, id) == None && TellsEnding(Apply(s, step), id, ending)
  {
  }

  lemma TellsEndingStep(s: State, step: Step, id: JobId, ending: Option<Ending>)
    requires WorkersOk(s) && RowsShaped(s) && Enabled(s, step) && TellsEnding(s, id, ending)
    ensures TellsEnding(Apply(s, step), id, if EndsAt(s, step, id).Some? then EndsAt(s, step, id) else ending)
  {
    if WriteStep(step) {
      assert WorkerOk(s, s.workers[step.w]);
    } else if !step.Start? {
      TellsEndingKept(s, step, id, ending);
    }
  }

  /** In every run the times, the status and the error of a row are those of the steps that made them. */
  lemma {:induction false} RowTellsHistory(states: seq<State>, steps: seq<Step>, n: nat, id: JobId)
    requires IsRun(states, steps) && n <= |steps|
    ensures TellsStart(states[n], id, MarkedAt(states, steps, n, id))
    ensures TellsEnding(states[n], id, EndingOf(states, steps, n, id))
  {
    hide TellsStart, TellsEnding, Apply, WorkersOk, RowsShaped, EndsAt;
    if n == 0 {
      NothingToTell(states[0], id);
    } else {
      RowTellsHistory(states, steps, n - 1, id);
      RunInv(states, steps, n - 1);
      TellsStartStep(states[n - 1], steps[n - 1], id, MarkedAt(states, steps, n - 1, id));
      TellsEndingStep(states[n - 1], steps[n - 1], id, EndingOf(states, steps, n - 1, id));
    }
  }

  lemma NothingToTell(s: State, id: JobId)
    requires Init(s)
    ensures TellsStart(s, id, None) && TellsEnding(s, id, None)
  {
  }

  /** The later state of a row: what Submit stored is kept and the log has grown at its end. */
  predicate Extends(before: Job, after: Job) {
    && before.log <= after.log && before.kind == after.kind && before.params == after.params
    && before.createdBy == after.createdBy && before.createdAt == after.createdAt
  }

  lemma ExtendsStep(s: State, step: Step, id: JobId)
    requires Enabled(s, step) && id in s.rows
    ensures id in Apply(s, step).rows && Extends(s.rows[id], Apply(s, step).rows[id])
  {
  }

  /** A row is never removed, what Submit stored stays, and the log only grows at its end. */
  lemma {:induction false} LogOnlyGrows(states: seq<State>, steps: seq<Step>, m: nat, n: nat, id: JobId)
    requires IsRun(states, steps) && m <= n < |states| && id in states[m].rows
    ensures id in states[n].rows && Extends(states[m].rows[id], states[n].rows[id])
    decreases n
  {
    hide Enabled, Apply;
    if m < n {
      LogOnlyGrows(states, steps, m, n - 1, id);
      ExtendsStep(states[n - 1], steps[n - 1], id);
    }
  }

  function QueuedIds(rows: map<JobId, Job>): set<JobId> {
    set id | id in rows && rows[id].status == Queued
  }

  function Elements(ids: seq<JobId>): set<JobId> {
    set id | id in ids
  }

  lemma ReconcileMeans(rows: map<JobId, Job>, now: int)
    ensures var after := Reconcile(rows, now);
      && RunningIds(after) == {} && QueuedIds(after) == QueuedIds(rows) && after.Keys == rows.Keys
      && (forall id :: id in rows && rows[id].status == Running ==>
           after[id] == rows[id].(status := Failed, error := Some("agent restart"), endedAt := Some(now)))
      && forall id :: id in rows && rows[id].status != Running ==> after[id] == rows[id]
  {
  }

  /** Restart: when the reconciling UPDATE takes effect no row is running and every row that was
      running has failed; when the SELECT returns every queued id, the channel holds exactly the
      queued rows if they fit, and otherwise the first 256 of them while the rest stay queued. */
  lemma RestartReconciles(s: State, now: int, fetched: seq<JobId>)
    requires Inv(s) && Enabled(s, Start(now, true, fetched))
    requires Elements(fetched) == QueuedIds(s.rows)
    ensures var t := Apply(s, Start(now, true, fetched));
      && RunningIds(t.rows) == {}
      && QueuedIds(t.rows) == QueuedIds(s.rows)
      && t.rows.Keys == s.rows.Keys
      && (forall id :: id in s.rows && s.rows[id].status == Running ==>
           t.rows[id] == s.rows[id].(status := Failed, error := Some("agent restart"), endedAt := Some(now)))
      && (forall id :: id in s.rows && s.rows[id].status != Running ==> t.rows[id] == s.rows[id])
      && (|fetched| <= 256 ==> t.queue == fetched && Elements(t.queue) == QueuedIds(t.rows))
      && (|fetched| > 256 ==> t.queue == fetched[..256] && Elements(t.queue) <= QueuedIds(t.rows))
      && Distinct(t.queue)
  {
    hide Inv, Reconcile, RunningIds, QueuedIds;
    ReconcileMeans(s.rows, now);
    OfferAllPrefix([], fetched);
  }

  // ---- Get as written ----

  /** The step succeeds at Get only where Get as written does. */
  ghost predicate StrictGet(s: State, step: Step) {
    step.Load? && step.ok && Enabled(s, step) ==> Get(s.rows, s.workers[step.w].id).Ok?
  }

  ghost predicate NothingStarted(s: State) {
    && s.calls == multiset{}
    && (forall id :: id in s.rows ==> s.rows[id].status == Queued && s.rows[id].error == None)
    && (forall i :: 0 <= i < |s.workers| ==> s.workers[i].Idle? || s.workers[i].Fetched?)
  }

  lemma StrictStep(s: State, step: Step)
    requires WorkersOk(s) && NothingStarted(s) && Enabled(s, step) && StrictGet(s, step)
    ensures NothingStarted(Apply(s, step))
  {
  }

  /** As Get is written no handler is ever invoked and every job stays 'queued' for ever: a queued
      row has no error, so every dispatched id is dropped at Get. */
  lemma {:induction false} StrictGetRunsNothing(states: seq<State>, steps: seq<Step>, n: nat)
    requires IsRun(states, steps) && n < |states|
    requires forall i :: 0 <= i < |steps| ==> StrictGet(states[i], steps[i])
    ensures NothingStarted(states[n])
  {
    hide Enabled, Apply, WorkersOk;
    if n > 0 {
      StrictGetRunsNothing(states, steps, n - 1);
      RunInv(states, steps, n - 1);
      StrictStep(states[n - 1], steps[n - 1]);
    }
  }
}
