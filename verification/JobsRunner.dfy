/** The Runner object. Each method is one uninterrupted stretch of the program and is proved to take
    exactly the steps of the state machine, so everything proved about runs holds of the object. */
module JobsRunner {
  import opened Options
  import opened Sequences
  import opened Jobs
  import opened JobsSafety

  lemma HeldRowExists(s: State, w: nat)
    requires Inv(s) && w < |s.workers| && !s.workers[w].Idle?
    ensures s.workers[w].id in s.rows
  {
  }

  lemma FetchedRowIsNew(s: State, w: nat)
    requires Inv(s) && w < |s.workers| && s.workers[w].Fetched?
    ensures s.workers[w].id in s.rows
    ensures var job := s.rows[s.workers[w].id];
      job.status == Queued && job.error == None && job.startedAt == None && job.endedAt == None
  {
    assert WorkerOk(s, s.workers[w]);
  }

  lemma DownIsEmpty(s: State)
    requires Inv(s) && !s.up
    ensures s.queue == [] && s.workers == []
  {
  }

  lemma SubmittingHasRow(s: State, id: JobId)
    requires Inv(s) && id !in s.rows
    ensures id !in s.submitting
  {
  }

  /** The state in which worker w is inside the handler. */
  function Begun(s: State, w: nat, now: int, marked: bool): State
    requires w < |s.workers| && s.workers[w].Loaded? && s.workers[w].id in s.rows
  {
    var id := s.workers[w].id;
    s.(workers := s.workers[w := Handling(id)],
       rows := if marked then s.rows[id := MarkRow(s.rows[id], now)] else s.rows,
       calls := s.calls + multiset{id},
       lostMarks := if marked then s.lostMarks else s.lostMarks + multiset{id})
  }

  /** The state in which worker w has concluded the job. */
  function Concluded(s: State, w: nat, outcome: Outcome, end: int, written: bool): State
    requires w < |s.workers| && s.workers[w].Handling? && s.workers[w].id in s.rows
  {
    var id := s.workers[w].id;
    s.(workers := s.workers[w := Idle],
       rows := if written then s.rows[id := FinishRow(s.rows[id], outcome, end)] else s.rows,
       stranded := if !written && s.rows[id].status == Running then s.stranded + {id} else s.stranded)
  }

  /** Two steps lead there: the mark and the call. */
  lemma BegunBySteps(s: State, w: nat, now: int, marked: bool)
    requires Inv(s) && Enabled(s, Mark(w, now, marked))
    ensures s.workers[w].id in s.rows && Enabled(Apply(s, Mark(w, now, marked)), Invoke(w))
    ensures Begun(s, w, now, marked) == Apply(Apply(s, Mark(w, now, marked)), Invoke(w)) && Inv(Begun(s, w, now, marked))
  {
    HeldRowExists(s, w);
    hide Inv;
    InvStep(s, Mark(w, now, marked));
    InvStep(Apply(s, Mark(w, now, marked)), Invoke(w));
  }

  /** And here: the return of the handler and the last write. */
  lemma ConcludedBySteps(s: State, w: nat, outcome: Outcome, end: int, written: bool)
    requires Inv(s) && Enabled(s, Return(w, outcome))
    ensures s.workers[w].id in s.rows && Enabled(Apply(s, Return(w, outcome)), Finish(w, end, written))
    ensures Concluded(s, w, outcome, end, written) == Apply(Apply(s, Return(w, outcome)), Finish(w, end, written))
    ensures Inv(Concluded(s, w, outcome, end, written))
  {
    HeldRowExists(s, w);
    hide Inv;
    InvStep(s, Return(w, outcome));
    InvStep(Apply(s, Return(w, outcome)), Finish(w, end, written));
  }

  class Runner {
    const poolSize: nat
    var handlers: set<string>
    var rows: map<JobId, Job>
    var queue: seq<JobId>
    var workers: seq<Worker>
    var up: bool
    ghost var submitting: set<JobId>
    ghost var dispatched: seq<JobId>
    ghost var dropped: set<JobId>
    ghost var stranded: set<JobId>
    ghost var calls: multiset<JobId>
    ghost var lostMarks: multiset<JobId>

    ghost function View(): State
      reads this
    {
      State(poolSize, handlers, rows, up, queue, submitting, workers, dispatched, dropped, stranded, calls, lostMarks)
    }

    ghost predicate Valid()
      reads this
    {
      Inv(View())
    }

    constructor (workerCount: int)
      ensures Valid() && Init(View())
      ensures poolSize == if workerCount < 1 then 1 else workerCount
    {
      poolSize := if workerCount < 1 then 1 else workerCount;
      handlers, rows, queue, workers, up := {}, map[], [], [], false;
      submitting, dispatched, dropped, stranded, calls, lostMarks := {}, [], {}, {}, multiset{}, multiset{};
    }

    method Register(kind: string)
      requires Valid() && !up
      modifies this`handlers
      ensures Valid() && View() == Apply(old(View()), Step.Register(kind))
    {
      ghost var before := View();
      InvStep(before, Step.Register(kind));
      handlers := handlers + {kind};
    }

    /** The loop of Start over the queued ids: a non-blocking send of each. */
    method Enqueue(fetched: seq<JobId>)
      modifies this`queue
      ensures queue == OfferAll(old(queue), fetched)
    {
      var i := 0;
      while i < |fetched|
        invariant 0 <= i <= |fetched|
        invariant OfferAll(queue, fetched[i..]) == OfferAll(old(queue), fetched)
      {
        if |queue| < QUEUE_CAPACITY {
          queue := queue + [fetched[i]];
        }
        assert fetched[i..][1..] == fetched[i + 1..];
        i := i + 1;
      }
    }

    /** The loop of Start over the workers. */
    method SpawnWorkers()
      requires workers == []
      modifies this`workers
      ensures workers == seq(poolSize, _ => Idle)
    {
      var k := 0;
      while k < poolSize
        invariant 0 <= k <= poolSize && workers == seq(k, _ => Idle)
      {
        workers := workers + [Idle];
        k := k + 1;
      }
    }

    /** `fetched` is what the SELECT yields, `reconciled` whether the UPDATE took effect. */
    method Start(now: int, reconciled: bool, fetched: seq<JobId>)
      requires Valid() && !up && Distinct(fetched) && forall id :: id in fetched ==> QueuedRow(rows, id)
      modifies this
      ensures View() == Apply(old(View()), Step.Start(now, reconciled, fetched)) && Valid()
    {
      hide Inv, Reconcile, RunningIds, OfferAll;
      ghost var before := View();
      DownIsEmpty(before);
      stranded := if reconciled then {} else RunningIds(rows);
      if reconciled {
        rows := Reconcile(rows, now);
      }
      Enqueue(fetched);
      SpawnWorkers();
      up := true;
      InvStep(before, Step.Start(now, reconciled, fetched));
    }

    /** The worker loop takes an id from the channel. */
    method Receive(w: nat)
      requires Valid() && up && w < |workers| && workers[w].Idle? && queue != []
      modifies this
      ensures View() == Apply(old(View()), Step.Receive(w)) && Valid()
      ensures queue == old(queue)[1..] && workers == old(workers)[w := Fetched(old(queue)[0])] && rows == old(rows)
    {
      hide Inv;
      ghost var before := View();
      InvStep(before, Step.Receive(w));
      workers := workers[w := Fetched(queue[0])];
      dispatched := dispatched + [queue[0]];
      queue := queue[1..];
    }

    // ---- Submit and run, when nothing interrupts them ----

    /** `params` is None when json.Marshal refuses them; `written` is whether the INSERT succeeds when
        the primary key admits it. */
    method Submit(id: JobId, kind: string, params: Option<string>, author: string, now: int, written: bool) returns (r: Result<Job>)
      requires Valid() && up
      modifies this
      ensures Valid()
      ensures r.Err? <==> params == None || id in old(rows) || !written
      ensures r.Err? ==> View() == old(View())
      ensures r.Ok? ==> r.value.kind == kind && r.value.params == params.value && r.value.createdBy == author && r.value.createdAt == now
      ensures r.Ok? ==> r.value.status == Queued && r.value.progress == 0 && r.value.log == ""
      ensures r.Ok? ==> r.value.error == None && r.value.startedAt == None && r.value.endedAt == None
      ensures r.Ok? ==>
        && rows == old(rows)[id := r.value]
        && queue == (if |old(queue)| < 256 then old(queue) + [id] else old(queue))
        && View() == old(View()).(rows := rows, queue := queue)
    {
      hide Inv;
      if params == None {
        return Err("json: unsupported value");
      }
      if id in rows {
        return Err("UNIQUE constraint failed: jobs.id");
      }
      if !written {
        return Err("sql: write failed");
      }
      ghost var s := View();
      SubmittingHasRow(s, id);
      rows := rows[id := NewRow(kind, params.value, author, now)];
      submitting := submitting + {id};
      InvStep(s, Step.Insert(id, kind, params.value, author, now));
      ghost var s1 := View();
      if |queue| < QUEUE_CAPACITY {
        queue := queue + [id];
      }
      submitting := submitting - {id};
      InvStep(s1, Send(id));
      assert submitting == old(submitting);
      r := Ok(rows[id]);
    }

    /** The UPDATE that marks the job as running. */
    method MarkRunning(w: nat, now: int, marked: bool)
      requires Valid() && up && w < |workers| && workers[w].Loaded? && workers[w].kind in handlers && workers[w].id in rows
      modifies this
      ensures View() == Apply(old(View()), Step.Mark(w, now, marked)) && Valid()
    {
      hide Inv;
      InvStep(View(), Step.Mark(w, now, marked));
      var id := workers[w].id;
      if marked {
        rows := rows[id := MarkRow(rows[id], now)];
      } else {
        lostMarks := lostMarks + multiset{id};
      }
      workers := workers[w := Marked(id)];
    }

    /** The call of the handler. */
    method CallHandler(w: nat)
      requires Valid() && up && w < |workers| && workers[w].Marked?
      modifies this
      ensures View() == Apply(old(View()), Step.Invoke(w)) && Valid()
    {
      hide Inv;
      InvStep(View(), Step.Invoke(w));
      calls := calls + multiset{workers[w].id};
      workers := workers[w := Handling(workers[w].id)];
    }

    /** The part of run after the handler has returned. */
    method Conclude(w: nat, outcome: Outcome, end: int, written: bool)
      requires Valid() && up && w < |workers| && workers[w].Handling?
      modifies this
      ensures Valid() && old(workers)[w].id in old(rows) && View() == Concluded(old(View()), w, outcome, end, written)
    {
      ConcludedBySteps(View(), w, outcome, end, written);
      hide Inv, Enabled, Apply;
      var id := workers[w].id;
      if written {
        rows := rows[id := FinishRow(rows[id], outcome, end)];
      } else if rows[id].status == Running {
        stranded := stranded + {id};
      }
      workers := workers[w := Idle];
    }

    /** Both parts, when nothing else happens meanwhile. */
    method Execute(w: nat, now: int, marked: bool, outcome: Outcome, end: int, written: bool)
      requires Valid() && up && w < |workers| && workers[w].Loaded? && workers[w].kind in handlers
      modifies this
      ensures Valid() && up
      ensures old(workers)[w].id in old(rows)
      ensures var id := old(workers)[w].id;
        var job := old(rows)[id];
        var begun := if marked then job.(status := Running, startedAt := Some(now)) else job;
        && workers == old(workers)[w := Idle] && queue == old(queue) && handlers == old(handlers)
        && rows == old(rows)[id :=
             if !written then begun
             else match outcome
               case Returned => begun.(status := Succeeded, progress := 100, endedAt := Some(end))
               case Errored(message) => begun.(status := Failed, error := Some(message), endedAt := Some(end))
               case Interrupted(message) => begun.(status := Cancelled, error := Some(message), endedAt := Some(end))]
        && calls == old(calls) + multiset{id}
    {
      hide Inv;
      BegunBySteps(View(), w, now, marked);
      MarkRunning(w, now, marked);
      CallHandler(w);
      Conclude(w, outcome, end, written);
    }

    /** `getOk` is whether Get succeeds, the two flags whether the writes take effect, `outcome` what
        the handler returns if it is reached. Only the row of the job that the worker holds changes. */
    method Run(w: nat, getOk: bool, now: int, marked: bool, outcome: Outcome, end: int, written: bool)
      requires Valid() && up && w < |workers| && workers[w].Fetched?
      modifies this
      ensures Valid()
      ensures workers == old(workers)[w := Idle] && queue == old(queue)
      ensures old(workers)[w].id in old(rows)
      ensures var id := old(workers)[w].id;
        var job := old(rows)[id];
        var begun := if marked then job.(status := Running, startedAt := Some(now)) else job;
        && job.status == Queued && job.error == None && job.startedAt == None && job.endedAt == None
        && rows == old(rows)[id :=
             if !getOk then job
             else if job.kind !in handlers then
               if written then job.(status := Failed, error := Some("no handler for kind " + job.kind), endedAt := Some(end)) else job
             else if !written then begun
             else match outcome
               case Returned => begun.(status := Succeeded, progress := 100, endedAt := Some(end))
               case Errored(message) => begun.(status := Failed, error := Some(message), endedAt := Some(end))
               case Interrupted(message) => begun.(status := Cancelled, error := Some(message), endedAt := Some(end))]
        && calls == if getOk && job.kind in handlers then old(calls) + multiset{id} else old(calls)
    {
      hide Inv;
      ghost var s := View();
      FetchedRowIsNew(s, w);
      var id := workers[w].id;
      InvStep(s, Load(w, getOk));
      if !getOk {
        workers := workers[w := Idle];
        dropped := dropped + {id};
        return;
      }
      workers := workers[w := Loaded(id, rows[id].kind)];
      if rows[id].kind !in handlers {
        ghost var s1 := View();
        if written {
          rows := rows[id := FinalizeRow(rows[id], Failed, "no handler for kind " + rows[id].kind, end)];
        }
        workers := workers[w := Idle];
        InvStep(s1, Reject(w, end, written));
      } else {
        Execute(w, now, marked, outcome, end, written);
      }
    }

    /** progressImpl.Set */
    method SetProgress(id: JobId, percent: int)
      requires Valid() && up
      modifies this`rows
      ensures Valid() && View() == Apply(old(View()), Step.SetProgress(id, percent))
      ensures rows.Keys == old(rows).Keys && forall other :: other in rows && other != id ==> rows[other] == old(rows)[other]
      ensures id in rows ==> rows[id] == old(rows)[id].(progress := if percent < 0 then 0 else if percent > 100 then 100 else percent)
    {
      hide Inv;
      ghost var before := View();
      var clamped := percent;
      if clamped < 0 {
        clamped := 0;
      }
      if clamped > 100 {
        clamped := 100;
      }
      if id in rows {
        rows := rows[id := rows[id].(progress := clamped)];
      }
      InvStep(before, Step.SetProgress(id, percent));
    }

    /** progressImpl.Logf, given the formatted line. */
    method Logf(id: JobId, line: string)
      requires Valid() && up
      modifies this`rows
      ensures Valid() && View() == Apply(old(View()), AppendLog(id, line))
      ensures rows.Keys == old(rows).Keys && forall other :: other in rows && other != id ==> rows[other] == old(rows)[other]
      ensures id in rows ==> rows[id] == old(rows)[id].(log := old(rows)[id].log + line)
    {
      hide Inv;
      ghost var before := View();
      if id in rows {
        rows := rows[id := rows[id].(log := rows[id].log + line)];
      }
      InvStep(before, Step.AppendLog(id, line));
    }
  }
}
