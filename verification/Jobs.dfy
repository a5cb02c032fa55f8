/** The durable job runner as a state machine.
    A step is one atomic action of the program: one SQL statement, one channel operation, or one
    handler call. Any number of submitters and workers interleave, the process may crash between
    any two steps, and `Start` begins the next epoch. Rows survive a crash; all the rest is memory.
    The code ignores the errors of its row writes, so the three writes of `run` carry a flag that
    says whether they took effect. */
module Jobs {
  import opened Options
  import opened Sequences

  type JobId = string

  const QUEUE_CAPACITY: nat := 256

  datatype Status = Queued | Running | Succeeded | Failed | Cancelled

  predicate Terminal(st: Status) {
    st.Succeeded? || st.Failed? || st.Cancelled?
  }

  datatype Job = Job(
    kind: string, params: string, status: Status, progress: int, log: string, error: Option<string>,
    createdBy: string, createdAt: int, startedAt: Option<int>, endedAt: Option<int>)

  /** What a handler returns: nil, an error, or an error that wraps context.Canceled. */
  datatype Outcome = Returned | Errored(message: string) | Interrupted(message: string)

  /** The program point of a worker goroutine and the id it holds. */
  datatype Worker =
    | Idle
    | Fetched(id: JobId)                     // received from the channel, before Get
    | Loaded(id: JobId, kind: string)        // Get succeeded, before the handler lookup
    | Marked(id: JobId)                      // after UPDATE ... 'running', before the handler
    | Handling(id: JobId)                    // inside the handler
    | Finishing(id: JobId, outcome: Outcome) // handler returned, before the last UPDATE

  predicate PastMark(w: Worker) {
    w.Marked? || w.Handling? || w.Finishing?
  }

  datatype State = State(
    poolSize: nat,
    handlers: set<string>,        // the registered kinds
    rows: map<JobId, Job>,        // the jobs table
    up: bool,                     // Start has run since the last crash
    queue: seq<JobId>,            // the buffered channel
    submitting: set<JobId>,       // ids inserted by a Submit that has not reached its send yet
    workers: seq<Worker>,
    dispatched: seq<JobId>,       // history: ids received by workers in this epoch
    dropped: set<JobId>,          // history: ids dropped in this epoch because Get failed
    stranded: set<JobId>,         // history: rows left 'running' in this epoch by a lost write
    calls: multiset<JobId>,       // history: handler invocations, all epochs
    lostMarks: multiset<JobId>)   // history: lost UPDATE ... 'running' writes, all epochs

  ghost predicate Init(s: State) {
    && s.poolSize >= 1
    && s.handlers == {} && s.rows == map[] && !s.up && s.queue == [] && s.submitting == {} && s.workers == []
    && s.dispatched == [] && s.dropped == {} && s.stranded == {}
    && s.calls == multiset{} && s.lostMarks == multiset{}
  }

  datatype Step =
    | Crash
    | Register(kind: string)
    | Start(now: int, reconciled: bool, fetched: seq<JobId>)
    | Insert(id: JobId, kind: string, params: string, author: string, now: int)
    | Send(id: JobId)
    | Receive(w: nat)
    | Load(w: nat, ok: bool)
    | Reject(w: nat, now: int, written: bool)
    | Mark(w: nat, now: int, written: bool)
    | Invoke(w: nat)
    | Return(w: nat, outcome: Outcome)
    | Finish(w: nat, now: int, written: bool)
    | SetProgress(id: JobId, percent: int)
    | AppendLog(id: JobId, line: string)

  /** `select { case queue <- id: default: }` */
  function Offer(queue: seq<JobId>, id: JobId): seq<JobId> {
    if |queue| < QUEUE_CAPACITY then queue + [id] else queue
  }

  function OfferAll(queue: seq<JobId>, ids: seq<JobId>): seq<JobId>
    decreases |ids|
  {
    if ids == [] then queue else OfferAll(Offer(queue, ids[0]), ids[1..])
  }

  predicate QueuedRow(rows: map<JobId, Job>, id: JobId) {
    id in rows && rows[id].status == Queued
  }

  /** The UPDATE with which Start reconciles: every running row fails, nothing else changes. */
  function Reconcile(rows: map<JobId, Job>, now: int): map<JobId, Job> {
    map id | id in rows ::
      if rows[id].status == Running
      then rows[id].(status := Failed, error := Some("agent restart"), endedAt := Some(now))
      else rows[id]
  }

  function RunningIds(rows: map<JobId, Job>): set<JobId> {
    set id | id in rows && rows[id].status == Running
  }

  /** Get as written: the nullable error column is scanned into a plain string, which fails on NULL. */
  function Get(rows: map<JobId, Job>, id: JobId): (r: Result<Job>)
    ensures r.Ok? <==> id in rows && rows[id].error.Some?
    ensures r.Ok? ==> r.value == rows[id]
  {
    if id !in rows then Err("sql: no rows in result set")
    else if rows[id].error == None then Err("sql: converting NULL to string is unsupported")
    else Ok(rows[id])
  }

  function NewRow(kind: string, params: string, author: string, now: int): Job {
    Job(kind, params, Queued, 0, "", None, author, now, None, None)
  }

  function MarkRow(job: Job, now: int): Job {
    job.(status := Running, startedAt := Some(now))
  }

  /** The UPDATE of `finalize`. */
  function FinalizeRow(job: Job, st: Status, message: string, now: int): Job {
    job.(status := st, error := Some(message), endedAt := Some(now))
  }

  /** The last UPDATE of `run`. */
  function FinishRow(job: Job, outcome: Outcome, now: int): (r: Job)
    ensures Terminal(r.status) && r.endedAt == Some(now) && r.startedAt == job.startedAt && r.log == job.log
    ensures r.status == Succeeded <==> outcome.Returned?
    ensures r.status == Cancelled <==> outcome.Interrupted?
    ensures !outcome.Returned? ==> r.error == Some(outcome.message) && r.progress == job.progress
  {
    match outcome
    case Returned => job.(status := Succeeded, progress := 100, endedAt := Some(now))
    case Errored(message) => FinalizeRow(job, Failed, message, now)
    case Interrupted(message) => FinalizeRow(job, Cancelled, message, now)
  }

  function Clamp(percent: int): int {
    if percent < 0 then 0 else if percent > 100 then 100 else percent
  }

  predicate WorkerAt(s: State, w: nat) {
    s.up && w < |s.workers|
  }

  predicate Enabled(s: State, step: Step) {
    match step
    case Crash => true
    case Register(_) => !s.up
    case Start(_, reconciled, fetched) =>
      // The SELECT returns rows that are queued, each id once; an error may cut it short.
      !s.up && Distinct(fetched) && forall id :: id in fetched ==> QueuedRow(s.rows, id)
    case Insert(_, _, _, _, _) => s.up
    case Send(id) => s.up && id in s.submitting
    case Receive(w) => WorkerAt(s, w) && s.workers[w].Idle? && s.queue != []
    case Load(w, ok) => WorkerAt(s, w) && s.workers[w].Fetched? && (ok ==> s.workers[w].id in s.rows)
    case Reject(w, _, _) => WorkerAt(s, w) && s.workers[w].Loaded? && s.workers[w].kind !in s.handlers
    case Mark(w, _, _) => WorkerAt(s, w) && s.workers[w].Loaded? && s.workers[w].kind in s.handlers
    case Invoke(w) => WorkerAt(s, w) && s.workers[w].Marked?
    case Return(w, _) => WorkerAt(s, w) && s.workers[w].Handling?
    case Finish(w, _, _) => WorkerAt(s, w) && s.workers[w].Finishing?
    case SetProgress(_, _) => s.up
    case AppendLog(_, _) => s.up
  }

  function Apply(s: State, step: Step): State
    requires Enabled(s, step)
  {
    match step
    case Crash =>
      s.(handlers := {}, up := false, queue := [], submitting := {}, workers := [], dispatched := [], dropped := {}, stranded := {})
    case Register(kind) =>
      s.(handlers := s.handlers + {kind})
    case Start(now, reconciled, fetched) =>
      s.(up := true,
         rows := if reconciled then Reconcile(s.rows, now) else s.rows,
         stranded := if reconciled then {} else RunningIds(s.rows),
         queue := OfferAll([], fetched),
         workers := seq(s.poolSize, _ => Idle))
    case Insert(id, kind, params, author, now) =>
      // The primary key refuses an id that is already there; Submit then returns the error.
      if id in s.rows then s
      else s.(rows := s.rows[id := NewRow(kind, params, author, now)], submitting := s.submitting + {id})
    case Send(id) =>
      s.(queue := Offer(s.queue, id), submitting := s.submitting - {id})
    case Receive(w) =>
      s.(queue := s.queue[1..], workers := s.workers[w := Fetched(s.queue[0])], dispatched := s.dispatched + [s.queue[0]])
    case Load(w, ok) =>
      var id := s.workers[w].id;
      if ok then s.(workers := s.workers[w := Loaded(id, s.rows[id].kind)])
      else s.(workers := s.workers[w := Idle], dropped := s.dropped + {id})
    case Reject(w, now, written) =>
      var id := s.workers[w].id;
      s.(workers := s.workers[w := Idle],
         rows := if written && id in s.rows
                 then s.rows[id := FinalizeRow(s.rows[id], Failed, "no handler for kind " + s.workers[w].kind, now)]
                 else s.rows)
    case Mark(w, now, written) =>
      var id := s.workers[w].id;
      s.(workers := s.workers[w := Marked(id)],
         rows := if written && id in s.rows then s.rows[id := MarkRow(s.rows[id], now)] else s.rows,
         lostMarks := if written then s.lostMarks else s.lostMarks + multiset{id})
    case Invoke(w) =>
      s.(workers := s.workers[w := Handling(s.workers[w].id)], calls := s.calls + multiset{s.workers[w].id})
    case Return(w, outcome) =>
      s.(workers := s.workers[w := Finishing(s.workers[w].id, outcome)])
    case Finish(w, now, written) =>
      var id := s.workers[w].id;
      s.(workers := s.workers[w := Idle],
         rows := if written && id in s.rows then s.rows[id := FinishRow(s.rows[id], s.workers[w].outcome, now)] else s.rows,
         stranded := if !written && id in s.rows && s.rows[id].status == Running then s.stranded + {id} else s.stranded)
    case SetProgress(id, percent) =>
      if id in s.rows then s.(rows := s.rows[id := s.rows[id].(progress := Clamp(percent))]) else s
    case AppendLog(id, line) =>
      if id in s.rows then s.(rows := s.rows[id := s.rows[id].(log := s.rows[id].log + line)]) else s
  }

  /** States and the steps between them, from any state. */
  ghost predicate IsPath(states: seq<State>, steps: seq<Step>) {
    && |states| == |steps| + 1
    && forall i :: 0 <= i < |steps| ==> Enabled(states[i], steps[i]) && states[i + 1] == Apply(states[i], steps[i])
  }

  /** A run: a path from an empty database. */
  ghost predicate IsRun(states: seq<State>, steps: seq<Step>) {
    IsPath(states, steps) && Init(states[0])
  }
}
