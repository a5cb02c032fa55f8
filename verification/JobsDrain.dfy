/** Draining: what the workers do when nothing new is submitted, handlers return and no write is lost. */
module JobsDrain {
  import opened Jobs
  import opened JobsSafety
  import opened JobsRuns

  /** A step of a worker whose writes take effect. */
  predicate WorkerStep(step: Step) {
    || step.Receive? || step.Load? || step.Invoke? || step.Return?
    || (step.Reject? && step.written) || (step.Mark? && step.written) || (step.Finish? && step.written)
  }

  /** How many steps a worker is away from idle, at most. */
  function Rank(w: Worker): nat {
    match w
    case Idle => 0
    case Finishing(_, _) => 1
    case Handling(_) => 2
    case Marked(_) => 3
    case Loaded(_, _) => 4
    case Fetched(_) => 5
  }

  function RankSum(workers: seq<Worker>): nat {
    if workers == [] then 0 else Rank(workers[0]) + RankSum(workers[1..])
  }

  function Measure(s: State): nat {
    6 * |s.queue| + RankSum(s.workers)
  }

  lemma {:induction false} RankSumUpdate(workers: seq<Worker>, i: nat, w: Worker)
    requires i < |workers|
    ensures RankSum(workers[i := w]) == RankSum(workers) - Rank(workers[i]) + Rank(w)
  {
    if i == 0 {
      assert workers[i := w][1..] == workers[1..];
    } else {
      RankSumUpdate(workers[1..], i - 1, w);
      assert workers[i := w][1..] == workers[1..][i - 1 := w];
    }
  }

  lemma WorkerStepDescends(s: State, step: Step)
    requires WorkerStep(step) && Enabled(s, step)
    ensures Measure(Apply(s, step)) < Measure(s)
  {
    RankSumUpdate(s.workers, step.w, Apply(s, step).workers[step.w]);
  }

  /** A step in a drain: one of a worker, or one that a handler takes through its Progress. */
  predicate DrainStep(step: Step) {
    WorkerStep(step) || step.SetProgress? || step.AppendLog?
  }

  /** From any state, steps of the workers and of the handlers they run. */
  ghost predicate IsDrain(states: seq<State>, steps: seq<Step>) {
    IsPath(states, steps) && forall i :: 0 <= i < |steps| ==> DrainStep(steps[i])
  }

  /** How many of the first n steps are steps of workers. */
  function WorkerSteps(steps: seq<Step>, n: nat): nat
    requires n <= |steps|
  {
    if n == 0 then 0 else WorkerSteps(steps, n - 1) + (if WorkerStep(steps[n - 1]) then 1 else 0)
  }

  /** However much progress handlers report, a drain has finitely many worker steps: as many at most as
      the measure of the state it starts from. */
  lemma {:induction false} DrainIsFinite(states: seq<State>, steps: seq<Step>, n: nat)
    requires IsDrain(states, steps) && n <= |steps|
    ensures WorkerSteps(steps, n) + Measure(states[n]) <= Measure(states[0])
  {
    hide Apply, Enabled, WorkerStep, DrainStep, Measure;
    if n > 0 {
      DrainIsFinite(states, steps, n - 1);
      DrainStepMeasure(states[n - 1], steps[n - 1]);
    }
  }

  lemma DrainStepMeasure(s: State, step: Step)
    requires DrainStep(step) && Enabled(s, step)
    ensures Measure(Apply(s, step)) + (if WorkerStep(step) then 1 else 0) <= Measure(s)
  {
    if WorkerStep(step) {
      WorkerStepDescends(s, step);
    }
  }

  /** Where a job of the drain is: still in flight, finished, or dropped by a failed Get. */
  ghost predicate Tracked(s: State, id: JobId) {
    || id in s.queue
    || (exists w :: HeldBy(s, w, id))
    || (id in s.rows && Terminal(s.rows[id].status) && id !in s.dropped)
    || id in s.dropped
  }

  ghost predicate InFlight(s: State, id: JobId) {
    id in s.queue || exists w :: HeldBy(s, w, id)
  }

  lemma TrackedQueued(s: State, step: Step, id: JobId)
    requires DrainStep(step) && Enabled(s, step) && id in s.queue
    ensures InFlight(Apply(s, step), id)
  {
    var t := Apply(s, step);
    assert s.queue == [s.queue[0]] + s.queue[1..];
    if step.Receive? && id == s.queue[0] {
      assert HeldBy(t, step.w, id);
    }
  }

  lemma TrackedHeld(s: State, step: Step, id: JobId, w: nat)
    requires WorkersOk(s) && DrainStep(step) && Enabled(s, step) && HeldBy(s, w, id)
    ensures Tracked(Apply(s, step), id)
  {
    var t := Apply(s, step);
    assert WorkerOk(s, s.workers[w]);
    if !WorkerStep(step) || w != step.w || !t.workers[w].Idle? {
      assert HeldBy(t, w, id);
    }
  }

  lemma TrackedDone(s: State, step: Step, id: JobId)
    requires WorkersOk(s) && DrainStep(step) && Enabled(s, step)
    requires id in s.dropped || (id in s.rows && Terminal(s.rows[id].status) && id !in s.dropped)
    ensures Tracked(Apply(s, step), id)
  {
  }

  lemma TrackedStep(s: State, step: Step, id: JobId)
    requires WorkersOk(s) && DrainStep(step) && Enabled(s, step) && Tracked(s, id)
    ensures Tracked(Apply(s, step), id)
  {
    hide WorkersOk;
    if id in s.queue {
      TrackedQueued(s, step, id);
    } else if w: nat :| HeldBy(s, w, id) {
      TrackedHeld(s, step, id, w);
    } else {
      TrackedDone(s, step, id);
    }
  }

  lemma UpStays(s: State, step: Step)
    requires s.up && DrainStep(step) && Enabled(s, step)
    ensures Apply(s, step).up
  {
  }

  lemma {:induction false} DrainKeeps(states: seq<State>, steps: seq<Step>, n: nat)
    requires IsDrain(states, steps) && n <= |steps| && Inv(states[0]) && states[0].up
    ensures Inv(states[n]) && states[n].up
    ensures forall id :: Tracked(states[0], id) ==> Tracked(states[n], id)
  {
    hide Apply, Enabled, Tracked, WorkersOk, DrainStep;
    if n > 0 {
      DrainKeeps(states, steps, n - 1);
      UpStays(states[n - 1], steps[n - 1]);
      InvStep(states[n - 1], steps[n - 1]);
      forall id | Tracked(states[n - 1], id)
        ensures Tracked(states[n], id)
      {
        TrackedStep(states[n - 1], steps[n - 1], id);
      }
    }
  }

  /** A step that a busy worker can take. */
  function NextStep(s: State, w: nat): Step
    requires w < |s.workers| && !s.workers[w].Idle?
  {
    match s.workers[w]
    case Fetched(_) => Load(w, false)
    case Loaded(_, kind) => if kind in s.handlers then Mark(w, 0, true) else Reject(w, 0, true)
    case Marked(_) => Invoke(w)
    case Handling(_) => Return(w, Returned)
    case Finishing(_, _) => Finish(w, 0, true)
  }

  ghost predicate Settled(s: State) {
    s.queue == [] && forall w :: 0 <= w < |s.workers| ==> s.workers[w].Idle?
  }

  /** Some worker step is enabled exactly when the channel is not empty or some worker is busy. */
  lemma MovesUnlessSettled(s: State)
    requires Inv(s) && s.up
    ensures Settled(s) <==> !exists step :: WorkerStep(step) && Enabled(s, step)
  {
    if w: nat :| w < |s.workers| && !s.workers[w].Idle? {
      assert WorkerStep(NextStep(s, w)) && Enabled(s, NextStep(s, w));
    } else if s.queue != [] {
      assert WorkerStep(Receive(0)) && Enabled(s, Receive(0));
    }
  }

  /** The Get for `id` failed in one of the first n steps. */
  ghost predicate GetFailed(states: seq<State>, steps: seq<Step>, n: nat, id: JobId)
    requires n <= |steps| <= |states|
  {
    exists k :: 0 <= k < n && steps[k].Load? && !steps[k].ok && HeldBy(states[k], steps[k].w, id)
  }

  lemma DroppedByLoad(s: State, step: Step, id: JobId)
    requires DrainStep(step) && Enabled(s, step)
    ensures id in Apply(s, step).dropped <==> id in s.dropped || (step.Load? && !step.ok && HeldBy(s, step.w, id))
  {
  }

  lemma {:induction false} DroppedIffGetFailed(states: seq<State>, steps: seq<Step>, n: nat, id: JobId)
    requires IsDrain(states, steps) && n <= |steps| && id !in states[0].dropped
    ensures id in states[n].dropped <==> GetFailed(states, steps, n, id)
  {
    hide Apply, Enabled, HeldBy, DrainStep;
    if n > 0 {
      DroppedIffGetFailed(states, steps, n - 1, id);
      DroppedByLoad(states[n - 1], steps[n - 1], id);
    }
  }

  lemma InFlightNotDropped(s: State, id: JobId)
    requires Inv(s) && InFlight(s, id)
    ensures id !in s.dropped
  {
  }

  /** A drain that cannot go on leaves the channel empty and the workers idle. Each job that was in
      flight has then finished exactly when its Get did not fail; otherwise it is still queued. */
  lemma DrainFinishes(states: seq<State>, steps: seq<Step>, id: JobId)
    requires IsDrain(states, steps) && Inv(states[0]) && states[0].up
    requires !exists step :: WorkerStep(step) && Enabled(states[|steps|], step)
    requires InFlight(states[0], id)
    ensures Settled(states[|steps|])
    ensures id in states[|steps|].rows
    ensures Terminal(states[|steps|].rows[id].status) <==> !GetFailed(states, steps, |steps|, id)
    ensures states[|steps|].rows[id].status == Queued <==> GetFailed(states, steps, |steps|, id)
  {
    var last := states[|steps|];
    DrainKeeps(states, steps, |steps|);
    MovesUnlessSettled(last);
    InFlightNotDropped(states[0], id);
    DroppedIffGetFailed(states, steps, |steps|, id);
    assert Tracked(states[0], id);
    assert Tracked(last, id);
    if id in last.dropped {
      assert QueuedRow(last.rows, id);
    }
  }
}
