/** The Auditor object: one uninterrupted `Log`, and the loop of `Verify`. */
module AuditorObject {
  import opened Options
  import opened Canonical
  import opened AuditChain
  import opened AuditLog

  /** Row k fails a check and every row before it passes. */
  predicate FirstFailing(env: Env, rows: seq<Row>, k: int) {
    0 <= k < |rows| && !RowOk(env, rows, k) && forall i :: 0 <= i < k ==> RowOk(env, rows, i)
  }

  /** The column for a payload: NULL when it is nil or json.Marshal refuses it. */
  function Column(p: Payload): Option<string> {
    if p.Unmarshalable? || p.json == Json.Null then None else Some(Json.Marshal(p.json))
  }

  /** The bytes that Log signs: nothing stands for a payload that json.Marshal refuses. */
  function Signed(entry: Entry, ts: int, kind: string, result: string, prev: Tag): string {
    Canonicalize(
      Content(ts, entry.actor, kind, entry.sourceIp, entry.action, entry.resource,
              if entry.before.Value? then Json.Marshal(entry.before.json) else "",
              if entry.after.Value? then Json.Marshal(entry.after.json) else "",
              entry.jobId, result),
      prev)
  }

  /** The row that Log makes, in terms of the entry it is given. */
  lemma RowSays(env: Env, id: int, entry: Entry, zeroTime: bool, now: int, prev: Tag)
    ensures var ts := if zeroTime then now else entry.ts;
      var kind := if entry.actorKind == "" then "operator" else entry.actorKind;
      var result := if entry.result == "" then "ok" else entry.result;
      MakeRow(env, id, Prepare(entry, zeroTime, now), prev) ==
        Row(id,
            Content(ts, entry.actor, kind, entry.sourceIp, entry.action, entry.resource,
                    Column(entry.before), Column(entry.after), entry.jobId, result),
            prev, env.mac(Signed(entry, ts, kind, result, prev)))
  {
    OnlyNullIsNull(entry.before);
    OnlyNullIsNull(entry.after);
    hide Json.Marshal, Canonicalize;
  }

  /** The constraints of the table, on the entry as it is given. */
  lemma AdmittedSays(entry: Entry, zeroTime: bool, now: int)
    ensures Admitted(Prepare(entry, zeroTime, now)) <==>
      entry.result in {"", "ok", "denied", "error"} && entry.actorKind in {"", "operator", "token", "system"}
  {
  }

  /** One more row on the last tag keeps the chain. */
  lemma LogKeeps(env: Env, rows: seq<Row>, history: seq<Logged>, id: int, e: Entry, readOk: bool)
    requires Chained(env, rows, history) && Ascending(rows) && Admitted(e)
    requires id > 0 && forall i :: 0 <= i < |rows| ==> rows[i].id < id
    ensures var row := MakeRow(env, id, e, TakenPrev(readOk, LastTag(rows)));
      Chained(env, rows + [row], history + [Logged(e, readOk)]) && Ascending(rows + [row])
  {
    hide MakeRow, Admitted;
    ChainedSnoc(env, rows, history, MakeRow(env, id, e, TakenPrev(readOk, LastTag(rows))), Logged(e, readOk));
  }

  lemma OnlyNullIsNull(p: Payload)
    ensures p.Value? ==> (Json.Marshal(p.json) == "null" <==> p.json == Json.Null)
  {
    if p.Value? {
      Json.UnmarshalMarshal(p.json);
      Json.UnmarshalMarshal(Json.Null);
    }
  }

  class Auditor {
    const env: Env
    var rows: seq<Row>
    ghost var history: seq<Logged>

    ghost predicate Valid()
      reads this
    {
      Chained(env, rows, history) && Ascending(rows)
    }

    constructor (env: Env)
      ensures Valid() && rows == [] && this.env == env
    {
      this.env := env;
      rows, history := [], [];
    }

    /** `id` is the next autoincrement value; `readOk` is whether the SELECT succeeds and `committed`
        whether INSERT and COMMIT do when the constraints admit the entry. */
    method Log(entry: Entry, zeroTime: bool, now: int, id: int, readOk: bool, committed: bool) returns (ok: bool)
      requires Valid() && id > 0 && forall i :: 0 <= i < |rows| ==> rows[i].id < id
      modifies this
      ensures Valid()
      ensures ok <==> committed && entry.result in {"", "ok", "denied", "error"} && entry.actorKind in {"", "operator", "token", "system"}
      ensures !ok ==> rows == old(rows) && history == old(history)
      ensures ok ==> history == old(history) + [Logged(Prepare(entry, zeroTime, now), readOk)]
      ensures ok ==>
        var ts := if zeroTime then now else entry.ts;
        var kind := if entry.actorKind == "" then "operator" else entry.actorKind;
        var result := if entry.result == "" then "ok" else entry.result;
        var prev := if readOk && old(rows) != [] then old(rows)[|old(rows)| - 1].hmac else GENESIS;
        rows == old(rows) + [
          Row(id,
              Content(ts, entry.actor, kind, entry.sourceIp, entry.action, entry.resource,
                      Column(entry.before), Column(entry.after), entry.jobId, result),
              prev, env.mac(Signed(entry, ts, kind, result, prev)))]
    {
      RowSays(env, id, entry, zeroTime, now, TakenPrev(readOk, LastTag(rows)));
      AdmittedSays(entry, zeroTime, now);
      hide MakeRow, Column, Signed, Prepare, Admitted, Chained, Ascending;
      var e := Prepare(entry, zeroTime, now);
      var prev := GENESIS;
      if readOk && rows != [] {
        prev := rows[|rows| - 1].hmac;
      }
      if !Admitted(e) || !committed {
        return false;
      }
      var row := MakeRow(env, id, e, prev);
      LogKeeps(env, rows, history, id, e, readOk);
      rows := rows + [row];
      history := history + [Logged(e, readOk)];
      ok := true;
    }

    /** Walks the chain; the result is the id of the least row that fails its previous-tag or its tag
        check, or 0. */
    method Verify() returns (brokenAt: int)
      ensures brokenAt == Verdict(env, rows)
      ensures Ascending(rows) ==> (brokenAt == 0 <==> Intact(env, rows))
      ensures brokenAt != 0 ==> exists k :: FirstFailing(env, rows, k) && rows[k].id == brokenAt
    {
      var expectedPrev := GENESIS;
      var i := 0;
      while i < |rows|
        invariant 0 <= i <= |rows|
        invariant expectedPrev == PrevTag(rows, i)
        invariant forall j :: 0 <= j < i ==> RowOk(env, rows, j)
      {
        hide Message;
        var row := rows[i];
        if row.prev != expectedPrev {
          assert !RowOk(env, rows, i);
          VerdictIs(env, rows, i);
          assert FirstFailing(env, rows, i);
          return row.id;
        }
        if env.mac(Message(env, row)) != row.hmac {
          assert !RowOk(env, rows, i);
          VerdictIs(env, rows, i);
          assert FirstFailing(env, rows, i);
          return row.id;
        }
        assert RowOk(env, rows, i);
        expectedPrev := row.hmac;
        i := i + 1;
      }
      brokenAt := 0;
    }
  }
}
