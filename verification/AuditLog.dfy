/** Appending to the audit log. `Log` is a transaction on the one connection: read the last tag,
    insert, commit. Any number of callers interleave, inserts may be refused and rolled back, and the
    SELECT may fail, in which case the code takes the genesis tag as if the table were empty. */
module AuditLog {
  import opened Options
  import opened Canonical
  import opened AuditChain

  // ---- What one call writes ----

  /** A payload of an entry: a value, or something json.Marshal refuses. */
  datatype Payload = Value(json: Json.Json) | Unmarshalable

  type Entry = Content<Payload>

  /** The text in the canonical bytes: Marshal's error is ignored and leaves it empty. */
  function LogText(p: Payload): string {
    if p.Value? then Json.Marshal(p.json) else ""
  }

  /** The column: "null" and a failed Marshal are stored as NULL. */
  function Store(p: Payload): Option<string> {
    if p.Value? && Json.Marshal(p.json) != "null" then Some(Json.Marshal(p.json)) else None
  }

  /** Defaults of Log: the time, the result and the actor kind. */
  function Prepare(e: Entry, zeroTime: bool, now: int): Entry {
    e.(ts := if zeroTime then now else e.ts,
       result := if e.result == "" then "ok" else e.result,
       actorKind := if e.actorKind == "" then "operator" else e.actorKind)
  }

  function LogMessage(e: Entry, prev: Tag): string {
    Canonicalize(e.With(LogText(e.before), LogText(e.after)), prev)
  }

  function MakeRow(env: Env, id: int, e: Entry, prev: Tag): (row: Row)
    ensures row.id == id
  {
    Row(id, e.With(Store(e.before), Store(e.after)), prev, env.mac(LogMessage(e, prev)))
  }

  /** The CHECK constraints of the table. */
  predicate Admitted(e: Entry) {
    ValidKind(e.actorKind) && ValidResult(e.result)
  }

  // ---- When the verifier rebuilds the bytes that were logged ----

  /** The remarshalling of the environment is Go's on texts that Marshal wrote. */
  ghost predicate GoJson(env: Env) {
    forall v: Json.Json {:trigger Json.Marshal(v)} :: env.remarshal(Json.Marshal(v)) == Json.Remarshal(Json.Marshal(v))
  }

  /** The hypotheses on remarshalling are met by the concrete parser and printer. */
  lemma RemarshalIsGoJson(mac: string -> Tag)
    ensures GoJson(Env(mac, text => Json.Remarshal(text)))
    ensures WritesJson(Env(mac, text => Json.Remarshal(text)))
  {
    hide Json.Marshal, TextOf;
    var env := Env(mac, text => Json.Remarshal(text));
    forall text: string
      ensures TextOf(env.remarshal(text), Json.MembersAscend)
    {
      RemarshalWritten(text);
    }
    forall v: Json.Json | Json.MembersAscend(v)
      ensures env.remarshal(Json.Marshal(v)) == Json.Marshal(v)
    {
      Json.RemarshalStable(v);
    }
  }

  /** A text that does not parse leaves the target nil, which is written as null. */
  lemma RemarshalWritten(text: string)
    ensures TextOf(Json.Remarshal(text), Json.MembersAscend)
  {
    match Json.Unmarshal(text)
    case None =>
      assert Json.MembersAscend(Json.Null) && Json.Marshal(Json.Null) == "null";
    case Some(v) =>
      Json.NormalizeAscends(v);
  }

  /** A value whose objects have their members in ascending order. */
  predicate Stable(p: Payload) {
    p.Value? && Json.MembersAscend(p.json)
  }

  /** What the verifier reads back of a logged payload. */
  function ReadBack(env: Env, p: Payload): string {
    Reread(env, Store(p))
  }

  lemma ReadBackOfValue(env: Env, v: Json.Json)
    requires GoJson(env)
    ensures ReadBack(env, Value(v)) == Json.Marshal(Json.Normalize(v))
    ensures Json.Normalize(v) == v <==> Json.MembersAscend(v)
  {
    Json.UnmarshalMarshal(v);
    assert env.remarshal(Json.Marshal(v)) == Json.Remarshal(Json.Marshal(v));
    if Json.MembersAscend(v) {
      Json.AscendingIsFixed(v);
    }
    Json.NormalizeAscends(v);
    if Json.Marshal(v) == "null" {
      Json.UnmarshalMarshal(Json.Null);
      assert v == Json.Null;
    }
  }

  lemma ReadBackOfUnmarshalable(env: Env)
    ensures ReadBack(env, Unmarshalable) == "null" == Json.Marshal(Json.Null)
  {
  }

  lemma EmptyIsNotNull(x: string, y: string)
    ensures "" + "|" + x != "null" + "|" + y
  {
    assert ("" + "|" + x)[0] == '|' && ("null" + "|" + y)[0] == 'n';
  }

  /** Two payload texts in a row, each ended by a bar, differ when either payload does. */
  lemma PayloadsCut(env: Env, before: Payload, after: Payload, x: string, y: string, rest: string)
    requires GoJson(env)
    requires x == LogText(after) + "|" + rest && y == ReadBack(env, after) + "|" + rest
    requires LogText(before) + "|" + x == ReadBack(env, before) + "|" + y
    ensures Stable(before) && Stable(after)
  {
    if before.Value? {
      ReadBackOfValue(env, before.json);
      CutJson(before.json, Json.Normalize(before.json), x, y);
      if after.Value? {
        ReadBackOfValue(env, after.json);
        CutJson(after.json, Json.Normalize(after.json), rest, rest);
      } else {
        ReadBackOfUnmarshalable(env);
      }
    } else {
      ReadBackOfUnmarshalable(env);
      EmptyIsNotNull(x, y);
    }
  }

  lemma DropPrefix(prefix: string, x: string, y: string)
    requires prefix + x == prefix + y
    ensures x == y
  {
    assert (prefix + x)[|prefix|..] == x && (prefix + y)[|prefix|..] == y;
  }

  /** Joined texts that agree in their first n fields agree in the rest. */
  lemma {:induction false} SameHead(a: seq<string>, b: seq<string>, n: nat)
    requires n < |a| && n < |b| && a[..n] == b[..n] && Join(a) == Join(b)
    ensures Join(a[n..]) == Join(b[n..])
  {
    if n == 0 {
      assert a[0..] == a && b[0..] == b;
    } else {
      assert a[0] == a[..n][0] == b[..n][0] == b[0];
      DropPrefix(a[0] + "|", Join(a[1..]), Join(b[1..]));
      assert a[1..][..n - 1] == a[..n][1..] && b[1..][..n - 1] == b[..n][1..];
      SameHead(a[1..], b[1..], n - 1);
      assert a[1..][n - 1..] == a[n..] && b[1..][n - 1..] == b[n..];
    }
  }

  /** The verifier rebuilds the logged bytes of an entry exactly when both payloads are stable. */
  lemma SameMessageIffStable(env: Env, e: Entry, prev: Tag, id: int)
    requires GoJson(env)
    ensures Message(env, MakeRow(env, id, e, prev)) == LogMessage(e, prev) <==> Stable(e.before) && Stable(e.after)
  {
    var row := MakeRow(env, id, e, prev);
    assert Rebuilt(env, row) == e.With(ReadBack(env, e.before), ReadBack(env, e.after));
    if Stable(e.before) && Stable(e.after) {
      ReadBackOfValue(env, e.before.json);
      ReadBackOfValue(env, e.after.json);
    } else if Message(env, row) == LogMessage(e, prev) {
      var a := Formatted(e.With(LogText(e.before), LogText(e.after)), prev);
      var b := Formatted(e.With(ReadBack(env, e.before), ReadBack(env, e.after)), prev);
      SameHead(a, b, 6);
      assert a[6..][1..] == a[7..] && b[6..][1..] == b[7..] && a[7..][1..] == a[8..] && b[7..][1..] == b[8..];
      assert a[8..] == b[8..];
      PayloadsCut(env, e.before, e.after, Join(a[7..]), Join(b[7..]), Join(a[8..]));
    }
  }

  // ---- Interleavings ----

  /** A committed entry, and whether its transaction managed to read the last tag. */
  datatype Logged = Logged(entry: Entry, readOk: bool)

  /** The program point of a caller inside Log. */
  datatype Caller =
    | Calling(entry: Entry)                             // before BeginTx gets the connection
    | Begun(entry: Entry)
    | HasPrev(logged: Logged, prev: Tag)                // after the SELECT
    | Inserted(logged: Logged, row: Row)                // after the INSERT, before the commit

  type CallerId = nat

  datatype Db = Db(rows: seq<Row>, connection: Option<CallerId>, callers: map<CallerId, Caller>, history: seq<Logged>)

  datatype Step =
    | Call(c: CallerId, entry: Entry, zeroTime: bool, now: int)
    | Begin(c: CallerId)
    | Select(c: CallerId, ok: bool)
    | Insert(c: CallerId, id: int)
    | Commit(c: CallerId)
    | Abort(c: CallerId)            // an error at any point: rollback and return it

  ghost predicate Init(db: Db) {
    db.rows == [] && db.connection == None && db.callers == map[] && db.history == []
  }

  predicate AtBegun(db: Db, c: CallerId) { c in db.callers && db.callers[c].Begun? }
  predicate AtHasPrev(db: Db, c: CallerId) { c in db.callers && db.callers[c].HasPrev? }
  predicate AtInserted(db: Db, c: CallerId) { c in db.callers && db.callers[c].Inserted? }

  ghost predicate Enabled(db: Db, step: Step) {
    match step
    case Call(c, _, _, _) => c !in db.callers
    case Begin(c) => c in db.callers && db.callers[c].Calling? && db.connection == None
    case Select(c, _) => AtBegun(db, c)
    case Insert(c, id) =>
      // The constraints hold and the id is above every id used so far.
      AtHasPrev(db, c) && Admitted(db.callers[c].logged.entry) && id > 0
      && forall i :: 0 <= i < |db.rows| ==> db.rows[i].id < id
    case Commit(c) => AtInserted(db, c)
    case Abort(c) => c in db.callers
  }

  function Release(db: Db, c: CallerId): Option<CallerId> {
    if db.connection == Some(c) then None else db.connection
  }

  function Apply(env: Env, db: Db, step: Step): Db
    requires Enabled(db, step)
  {
    match step
    case Call(c, entry, zeroTime, now) =>
      db.(callers := db.callers[c := Calling(Prepare(entry, zeroTime, now))])
    case Begin(c) =>
      db.(connection := Some(c), callers := db.callers[c := Begun(db.callers[c].entry)])
    case Select(c, ok) =>
      var prev := if ok then LastTag(db.rows) else GENESIS;
      db.(callers := db.callers[c := HasPrev(Logged(db.callers[c].entry, ok), prev)])
    case Insert(c, id) =>
      var caller := db.callers[c];
      db.(callers := db.callers[c := Inserted(caller.logged, MakeRow(env, id, caller.logged.entry, caller.prev))])
    case Commit(c) =>
      db.(rows := db.rows + [db.callers[c].row], history := db.history + [db.callers[c].logged],
          connection := Release(db, c), callers := db.callers - {c})
    case Abort(c) =>
      db.(connection := Release(db, c), callers := db.callers - {c})
  }

  ghost predicate IsRun(env: Env, states: seq<Db>, steps: seq<Step>) {
    && |states| == |steps| + 1
    && Init(states[0])
    && forall i :: 0 <= i < |steps| ==> Enabled(states[i], steps[i]) && states[i + 1] == Apply(env, states[i], steps[i])
  }

  /** The tag a transaction takes as the previous one. */
  function TakenPrev(readOk: bool, last: Tag): Tag {
    if readOk then last else GENESIS
  }

  /** The row was made from the logged entry on top of the tag `last`. */
  predicate MadeOn(env: Env, row: Row, logged: Logged, last: Tag) {
    Admitted(logged.entry) && row == MakeRow(env, row.id, logged.entry, TakenPrev(logged.readOk, last))
  }

  /** Row i was made from entry i of the history on top of the rows before it. */
  ghost predicate Chained(env: Env, rows: seq<Row>, history: seq<Logged>) {
    && |rows| == |history|
    && forall i {:trigger rows[i]} :: 0 <= i < |rows| ==> MadeOn(env, rows[i], history[i], PrevTag(rows, i))
  }

  /** Only the holder of the connection is inside its transaction, and what it read is still so. */
  ghost predicate CallerOk(env: Env, db: Db, c: CallerId)
    requires c in db.callers
  {
    var caller := db.callers[c];
    && (!caller.Calling? ==> db.connection == Some(c))
    && (caller.HasPrev? ==> caller.prev == TakenPrev(caller.logged.readOk, LastTag(db.rows)))
    && (caller.Inserted? ==>
         && caller.row.id > 0
         && (forall i :: 0 <= i < |db.rows| ==> db.rows[i].id < caller.row.id)
         && MadeOn(env, caller.row, caller.logged, LastTag(db.rows)))
  }

  ghost predicate Inv(env: Env, db: Db) {
    && Chained(env, db.rows, db.history)
    && Ascending(db.rows)
    && forall c :: c in db.callers ==> CallerOk(env, db, c)
  }

  lemma ChainedSnoc(env: Env, rows: seq<Row>, history: seq<Logged>, row: Row, logged: Logged)
    requires Chained(env, rows, history) && MadeOn(env, row, logged, LastTag(rows))
    ensures Chained(env, rows + [row], history + [logged])
  {
    hide MadeOn;
    var longer, more := rows + [row], history + [logged];
    assert Chained(env, longer, more) by {
      forall i | 0 <= i < |longer|
        ensures MadeOn(env, longer[i], more[i], PrevTag(longer, i))
      {
        assert PrevTag(longer, i) == PrevTag(rows, i);
        assert i < |rows| ==> longer[i] == rows[i] && more[i] == history[i];
        assert i < |rows| ==> MadeOn(env, rows[i], history[i], PrevTag(rows, i));
      }
    }
  }

  lemma CallersStep(env: Env, db: Db, step: Step, c: CallerId)
    requires Enabled(db, step) && c in Apply(env, db, step).callers
    requires step.c in db.callers ==> CallerOk(env, db, step.c)
    requires c != step.c ==> c in db.callers && CallerOk(env, db, c)
    ensures CallerOk(env, Apply(env, db, step), c)
  {
    hide MakeRow, Prepare;
  }

  lemma ChainStep(env: Env, db: Db, step: Step)
    requires Chained(env, db.rows, db.history) && Ascending(db.rows) && Enabled(db, step)
    requires step.c in db.callers ==> CallerOk(env, db, step.c)
    ensures Chained(env, Apply(env, db, step).rows, Apply(env, db, step).history) && Ascending(Apply(env, db, step).rows)
  {
    hide MadeOn, Prepare, Chained;
    if step.Commit? {
      ChainedSnoc(env, db.rows, db.history, db.callers[step.c].row, db.callers[step.c].logged);
    }
  }

  lemma InvStep(env: Env, db: Db, step: Step)
    requires Inv(env, db) && Enabled(db, step)
    ensures Inv(env, Apply(env, db, step))
  {
    hide CallerOk, Chained, Ascending;
    ChainStep(env, db, step);
    forall c | c in Apply(env, db, step).callers
      ensures CallerOk(env, Apply(env, db, step), c)
    {
      CallersStep(env, db, step, c);
    }
  }

  /** In every reachable state each row was made on top of the row before it: the chain never forks. */
  lemma {:induction false} RunInv(env: Env, states: seq<Db>, steps: seq<Step>, n: nat)
    requires IsRun(env, states, steps) && n < |states|
    ensures Inv(env, states[n])
  {
    if n > 0 {
      RunInv(env, states, steps, n - 1);
      InvStep(env, states[n - 1], steps[n - 1]);
    }
  }

  /** A call that nothing interrupts takes its five steps, and appends the row of the prepared entry on the
      last tag. */
  lemma UninterruptedAppends(env: Env, db: Db, c: CallerId, entry: Entry, zeroTime: bool, now: int, readOk: bool, id: int)
    returns (s1: Db, s2: Db, s3: Db, s4: Db, s5: Db)
    requires c !in db.callers && db.connection == None && Admitted(Prepare(entry, zeroTime, now))
    requires id > 0 && forall i :: 0 <= i < |db.rows| ==> db.rows[i].id < id
    ensures Enabled(db, Call(c, entry, zeroTime, now)) && s1 == Apply(env, db, Call(c, entry, zeroTime, now))
    ensures Enabled(s1, Begin(c)) && s2 == Apply(env, s1, Begin(c))
    ensures Enabled(s2, Select(c, readOk)) && s3 == Apply(env, s2, Select(c, readOk))
    ensures Enabled(s3, Insert(c, id)) && s4 == Apply(env, s3, Insert(c, id))
    ensures Enabled(s4, Commit(c)) && s5 == Apply(env, s4, Commit(c))
    ensures var e := Prepare(entry, zeroTime, now);
      s5 == db.(rows := db.rows + [MakeRow(env, id, e, TakenPrev(readOk, LastTag(db.rows)))], history := db.history + [Logged(e, readOk)])
  {
    hide Prepare, MakeRow, Admitted;
    s1 := Apply(env, db, Call(c, entry, zeroTime, now));
    s2 := Apply(env, s1, Begin(c));
    s3 := Apply(env, s2, Select(c, readOk));
    s4 := Apply(env, s3, Insert(c, id));
    s5 := Apply(env, s4, Commit(c));
    assert s5.callers == db.callers;
  }

  /** Calls start whenever they like, and wait while another has the connection. */
  lemma CallsWait(env: Env, db: Db, c: CallerId, entry: Entry, zeroTime: bool, now: int)
    requires c !in db.callers
    ensures Enabled(db, Call(c, entry, zeroTime, now))
    ensures var after := Apply(env, db, Call(c, entry, zeroTime, now));
      after.rows == db.rows && after.connection == db.connection && (Enabled(after, Begin(c)) <==> db.connection == None)
  {
  }

  /** A call can fail at any point: nothing of it is kept, and the connection is free again if it had it. */
  lemma AbortRollsBack(env: Env, db: Db, c: CallerId)
    requires c in db.callers
    ensures Enabled(db, Abort(c))
    ensures var after := Apply(env, db, Abort(c));
      && after.rows == db.rows && after.history == db.history && after.callers == db.callers - {c}
      && after.connection == if db.connection == Some(c) then None else db.connection
  {
  }

  /** Step k is a call of Log with an entry that is prepared to `e`. */
  predicate CalledWith(steps: seq<Step>, k: nat, e: Entry) {
    k < |steps| && steps[k].Call? && e == Prepare(steps[k].entry, steps[k].zeroTime, steps[k].now)
  }

  ghost predicate Called(steps: seq<Step>, n: nat, e: Entry) {
    exists k: nat :: k < n && CalledWith(steps, k, e)
  }

  function EntryOf(caller: Caller): Entry {
    match caller
    case Calling(entry) => entry
    case Begun(entry) => entry
    case HasPrev(logged, _) => logged.entry
    case Inserted(logged, _) => logged.entry
  }

  lemma CalledLater(steps: seq<Step>, n: nat, e: Entry)
    requires Called(steps, n, e)
    ensures Called(steps, n + 1, e)
  {
    var k: nat :| k < n && CalledWith(steps, k, e);
    assert k < n + 1;
  }

  /** Nothing is logged that no call asked for: in every run each committed entry is the prepared entry
      of an earlier call. */
  lemma {:induction false} OnlyCalledEntries(env: Env, states: seq<Db>, steps: seq<Step>, n: nat)
    requires IsRun(env, states, steps) && n < |states|
    ensures forall i :: 0 <= i < |states[n].history| ==> Called(steps, n, states[n].history[i].entry)
    ensures forall c :: c in states[n].callers ==> Called(steps, n, EntryOf(states[n].callers[c]))
  {
    hide Called, Prepare, MakeRow;
    if n > 0 {
      var s, step := states[n - 1], steps[n - 1];
      OnlyCalledEntries(env, states, steps, n - 1);
      assert Enabled(s, step) && states[n] == Apply(env, s, step);
      forall e | Called(steps, n - 1, e)
        ensures Called(steps, n, e)
      {
        CalledLater(steps, n - 1, e);
      }
      if step.Call? {
        JustCalled(steps, n - 1);
      }
    }
  }

  lemma JustCalled(steps: seq<Step>, k: nat)
    requires k < |steps| && steps[k].Call?
    ensures Called(steps, k + 1, Prepare(steps[k].entry, steps[k].zeroTime, steps[k].now))
  {
    assert CalledWith(steps, k, Prepare(steps[k].entry, steps[k].zeroTime, steps[k].now));
  }

  // ---- What Verify says about a log written this way ----

  /** The bytes logged and the bytes rebuilt for the rows. */
  ghost function AllMessages(env: Env, rows: seq<Row>, history: seq<Logged>): set<string>
    requires |rows| == |history|
  {
    Messages(env, rows) + set i | 0 <= i < |rows| :: LogMessage(history[i].entry, rows[i].prev)
  }

  /** What a caller controls: stable payloads, and a SELECT that succeeds once the table has a row. */
  predicate Sound(history: seq<Logged>, i: nat)
    requires i < |history|
  {
    Stable(history[i].entry.before) && Stable(history[i].entry.after) && (i > 0 ==> history[i].readOk)
  }

  predicate FirstUnsound(history: seq<Logged>, k: int) {
    0 <= k < |history| && !Sound(history, k) && forall i :: 0 <= i < k ==> Sound(history, i)
  }

  lemma RowOkIffSound(env: Env, rows: seq<Row>, history: seq<Logged>, i: nat)
    requires GoJson(env) && Chained(env, rows, history) && i < |rows|
    requires NoCollision(env, AllMessages(env, rows, history)) && NoGenesis(env, AllMessages(env, rows, history))
    ensures RowOk(env, rows, i) <==> Sound(history, i)
  {
    var e, prev := history[i].entry, rows[i].prev;
    assert rows[i] == MakeRow(env, rows[i].id, e, prev);
    SameMessageIffStable(env, e, prev, rows[i].id);
    assert Message(env, rows[i]) in AllMessages(env, rows, history);
    assert LogMessage(e, prev) in AllMessages(env, rows, history);
    if i > 0 {
      assert LogMessage(history[i - 1].entry, rows[i - 1].prev) in AllMessages(env, rows, history);
      assert rows[i - 1].hmac == env.mac(LogMessage(history[i - 1].entry, rows[i - 1].prev));
      assert PrevTag(rows, i) != GENESIS;
    }
  }

  /** After any interleaving Verify returns 0 exactly when every committed entry had stable payloads
      and read its predecessor; otherwise it returns the id of the first entry that did not. */
  lemma VerifyAfterRun(env: Env, states: seq<Db>, steps: seq<Step>, n: nat)
    requires IsRun(env, states, steps) && n < |states| && GoJson(env)
    requires |states[n].rows| == |states[n].history| ==>
      && NoCollision(env, AllMessages(env, states[n].rows, states[n].history))
      && NoGenesis(env, AllMessages(env, states[n].rows, states[n].history))
    ensures |states[n].rows| == |states[n].history|
    ensures Verdict(env, states[n].rows) == 0 <==> forall i :: 0 <= i < |states[n].history| ==> Sound(states[n].history, i)
    ensures forall k :: FirstUnsound(states[n].history, k) ==> Verdict(env, states[n].rows) == states[n].rows[k].id
  {
    hide Sound, RowOk, NoCollision, NoGenesis, AllMessages, IsRun;
    RunInv(env, states, steps, n);
    var rows, history := states[n].rows, states[n].history;
    forall i | 0 <= i < |rows|
      ensures RowOk(env, rows, i) <==> Sound(history, i)
    {
      RowOkIffSound(env, rows, history, i);
    }
    VerdictZero(env, rows);
    forall k | FirstUnsound(history, k)
      ensures Verdict(env, rows) == rows[k].id
    {
      VerdictIs(env, rows, k);
    }
  }
}
