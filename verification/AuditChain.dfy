/** The tag chain and its verifier. The MAC is an arbitrary function; that it has no collision among
    the messages compared, and never yields the genesis tag, are stated where they are used. */
module AuditChain {
  import opened Options
  import opened Canonical

  /** `mac` is HMAC under the master key; `remarshal` is json.Marshal after json.Unmarshal. */
  datatype Env = Env(mac: string -> Tag, remarshal: string -> string)

  datatype Row = Row(id: int, content: Content<Option<string>>, prev: Tag, hmac: Tag)

  /** The JSON text that the verifier gets from a nullable column: NULL leaves the value nil. */
  function Reread(env: Env, column: Option<string>): string {
    match column
    case None => "null"
    case Some(text) => env.remarshal(text)
  }

  /** The entry that the verifier rebuilds from a row. */
  function Rebuilt(env: Env, row: Row): Content<string> {
    row.content.With(Reread(env, row.content.before), Reread(env, row.content.after))
  }

  /** The canonical bytes that the verifier computes for a row. */
  function Message(env: Env, row: Row): string {
    Canonicalize(Rebuilt(env, row), row.prev)
  }

  /** The bytes are those of the fields of the row, in their order, with the payloads read back. */
  lemma MessageOf(env: Env, row: Row)
    ensures Message(env, row) == Canonicalize(
      Content(row.content.ts, row.content.actor, row.content.actorKind, row.content.sourceIp, row.content.action, row.content.resource,
              if row.content.before == None then "null" else env.remarshal(row.content.before.value),
              if row.content.after == None then "null" else env.remarshal(row.content.after.value),
              row.content.jobId, row.content.result),
      row.prev)
  {
  }

  function PrevTag(rows: seq<Row>, i: nat): Tag
    requires i <= |rows|
  {
    if i == 0 then GENESIS else rows[i - 1].hmac
  }

  function LastTag(rows: seq<Row>): Tag {
    PrevTag(rows, |rows|)
  }

  predicate RowOk(env: Env, rows: seq<Row>, i: nat)
    requires i < |rows|
  {
    rows[i].prev == PrevTag(rows, i) && env.mac(Message(env, rows[i])) == rows[i].hmac
  }

  predicate Intact(env: Env, rows: seq<Row>) {
    forall i :: 0 <= i < |rows| ==> RowOk(env, rows, i)
  }

  /** Autoincremented ids: positive and ascending. */
  predicate Ascending(rows: seq<Row>) {
    && (forall i :: 0 <= i < |rows| ==> rows[i].id > 0)
    && (forall i, j :: 0 <= i < j < |rows| ==> rows[i].id < rows[j].id)
  }

  /** The least index from i on whose row fails a check, or the number of rows. */
  function FirstBad(env: Env, rows: seq<Row>, i: nat): (bad: nat)
    requires i <= |rows|
    ensures i <= bad <= |rows|
    ensures forall j :: i <= j < bad ==> RowOk(env, rows, j)
    ensures bad < |rows| ==> !RowOk(env, rows, bad)
    decreases |rows| - i
  {
    if i == |rows| || !RowOk(env, rows, i) then i else FirstBad(env, rows, i + 1)
  }

  /** What Verify returns: the id of the first row that fails a check, or 0. */
  function Verdict(env: Env, rows: seq<Row>): int {
    var bad := FirstBad(env, rows, 0);
    if bad == |rows| then 0 else rows[bad].id
  }

  lemma VerdictIs(env: Env, rows: seq<Row>, k: nat)
    requires k < |rows| && !RowOk(env, rows, k) && forall i :: 0 <= i < k ==> RowOk(env, rows, i)
    ensures Verdict(env, rows) == rows[k].id
  {
  }

  lemma VerdictZero(env: Env, rows: seq<Row>)
    requires Ascending(rows)
    ensures Verdict(env, rows) == 0 <==> Intact(env, rows)
  {
  }

  // ---- Hypotheses on the MAC ----

  ghost function Messages(env: Env, rows: seq<Row>): set<string> {
    set i | 0 <= i < |rows| :: Message(env, rows[i])
  }

  ghost predicate NoCollision(env: Env, messages: set<string>) {
    forall a, b :: a in messages && b in messages && env.mac(a) == env.mac(b) ==> a == b
  }

  ghost predicate NoGenesis(env: Env, messages: set<string>) {
    forall m :: m in messages ==> env.mac(m) != GENESIS
  }

  // ---- The last tag determines the history ----

  lemma IntactPrefix(env: Env, rows: seq<Row>, n: nat)
    requires Intact(env, rows) && n <= |rows|
    ensures Intact(env, rows[..n])
    ensures Messages(env, rows[..n]) <= Messages(env, rows)
  {
    forall i | 0 <= i < n
      ensures RowOk(env, rows[..n], i)
    {
      assert RowOk(env, rows, i);
    }
    forall m | m in Messages(env, rows[..n])
      ensures m in Messages(env, rows)
    {
      var i :| 0 <= i < n && Message(env, rows[..n][i]) == m;
      assert Message(env, rows[i]) == m;
    }
  }

  lemma LastMessage(env: Env, rows: seq<Row>)
    requires Intact(env, rows) && rows != []
    ensures env.mac(Message(env, rows[|rows| - 1])) == LastTag(rows)
    ensures Message(env, rows[|rows| - 1]) in Messages(env, rows)
    ensures rows[|rows| - 1].prev == LastTag(rows[..|rows| - 1])
  {
    assert RowOk(env, rows, |rows| - 1);
  }

  /** Same length, and row by row the same canonical bytes, previous tag and tag. */
  predicate SameHistory(env: Env, a: seq<Row>, b: seq<Row>) {
    && |a| == |b|
    && forall i :: 0 <= i < |a| ==>
         Message(env, a[i]) == Message(env, b[i]) && a[i].prev == b[i].prev && a[i].hmac == b[i].hmac
  }

  lemma SameHistorySnoc(env: Env, a: seq<Row>, b: seq<Row>)
    requires a != [] && b != [] && SameHistory(env, a[..|a| - 1], b[..|b| - 1])
    requires Message(env, a[|a| - 1]) == Message(env, b[|b| - 1])
    requires a[|a| - 1].prev == b[|b| - 1].prev && a[|a| - 1].hmac == b[|b| - 1].hmac
    ensures SameHistory(env, a, b)
  {
    forall i | 0 <= i < |a| - 1
      ensures Message(env, a[i]) == Message(env, b[i]) && a[i].prev == b[i].prev && a[i].hmac == b[i].hmac
    {
      assert a[i] == a[..|a| - 1][i] && b[i] == b[..|b| - 1][i];
    }
  }

  /** One step of the descent: equal last tags mean equal last messages and equal tags before them. */
  lemma Descend(env: Env, a: seq<Row>, b: seq<Row>)
    requires Intact(env, a) && Intact(env, b) && LastTag(a) == LastTag(b)
    requires NoCollision(env, Messages(env, a) + Messages(env, b))
    requires NoGenesis(env, Messages(env, a) + Messages(env, b))
    ensures a == [] <==> b == []
    ensures a != [] ==>
      var m, n := |a| - 1, |b| - 1;
      && Message(env, a[m]) == Message(env, b[n]) && a[m].prev == b[n].prev
      && LastTag(a[..m]) == LastTag(b[..n]) && Intact(env, a[..m]) && Intact(env, b[..n])
      && Messages(env, a[..m]) <= Messages(env, a) && Messages(env, b[..n]) <= Messages(env, b)
  {
    if a != [] {
      LastMessage(env, a);
      IntactPrefix(env, a, |a| - 1);
    }
    if b != [] {
      LastMessage(env, b);
      IntactPrefix(env, b, |b| - 1);
    }
    if a != [] && b != [] {
      var m, n := |a| - 1, |b| - 1;
      CanonicalFixesPrev(Rebuilt(env, a[m]), Rebuilt(env, b[n]), a[m].prev, b[n].prev);
    }
  }

  /** Two intact logs that end in the same tag have the same history, by descent to genesis. */
  lemma {:induction false} LastTagFixesHistory(env: Env, a: seq<Row>, b: seq<Row>)
    requires Intact(env, a) && Intact(env, b) && LastTag(a) == LastTag(b)
    requires NoCollision(env, Messages(env, a) + Messages(env, b))
    requires NoGenesis(env, Messages(env, a) + Messages(env, b))
    ensures SameHistory(env, a, b)
    decreases |a|
  {
    Descend(env, a, b);
    if a != [] {
      LastTagFixesHistory(env, a[..|a| - 1], b[..|b| - 1]);
      SameHistorySnoc(env, a, b);
    }
  }

  /** Both payloads of the row are read back as JSON texts. */
  ghost predicate ReadsJson(env: Env, row: Row) {
    && (exists v: Json.Json :: Reread(env, row.content.before) == Json.Marshal(v))
    && (exists v: Json.Json :: Reread(env, row.content.after) == Json.Marshal(v))
  }

  /** The constraints of the table on a row. */
  predicate AdmittedRow(row: Row) {
    ValidKind(row.content.actorKind) && ValidResult(row.content.result)
  }

  /** What json.Marshal after json.Unmarshal yields is the text of a value whose object members ascend,
      and it leaves such texts as they are. */
  ghost predicate WritesJson(env: Env) {
    && (forall text: string :: TextOf(env.remarshal(text), Json.MembersAscend))
    && (forall v: Json.Json :: Json.MembersAscend(v) ==> env.remarshal(Json.Marshal(v)) == Json.Marshal(v))
  }

  /** The bytes that the verifier rebuilds for the row have one reading as a row. */
  ghost predicate ReadOneWay(env: Env, row: Row) {
    OneReading(Rebuilt(env, row), Json.MembersAscend)
  }

  lemma RebuiltFormed(env: Env, row: Row)
    requires WritesJson(env) && AdmittedRow(row)
    ensures Formed(Rebuilt(env, row), Json.MembersAscend)
  {
    RereadWritten(env, row.content.before);
    RereadWritten(env, row.content.after);
  }

  lemma RereadWritten(env: Env, column: Option<string>)
    requires WritesJson(env)
    ensures TextOf(Reread(env, column), Json.MembersAscend)
  {
    assert Json.MembersAscend(Json.Null) && Json.Marshal(Json.Null) == "null";
  }

  /** The last tag fixes every field of row i of `a` if its bytes are read in one way only, whatever rows
      that the table admits the other log holds. */
  lemma LastTagFixesContent(env: Env, a: seq<Row>, b: seq<Row>, i: nat)
    requires Intact(env, a) && Intact(env, b) && LastTag(a) == LastTag(b) && WritesJson(env)
    requires NoCollision(env, Messages(env, a) + Messages(env, b))
    requires NoGenesis(env, Messages(env, a) + Messages(env, b))
    requires i < |a| && AdmittedRow(a[i]) && ReadOneWay(env, a[i])
    requires |a| == |b| ==> AdmittedRow(b[i])
    ensures |a| == |b|
    ensures Rebuilt(env, a[i]) == Rebuilt(env, b[i]) && a[i].prev == b[i].prev && a[i].hmac == b[i].hmac
  {
    hide OneReading, Formed, Canonicalize;
    LastTagFixesHistory(env, a, b);
    RebuiltFormed(env, a[i]);
    RebuiltFormed(env, b[i]);
    OneReadingDetermined(Rebuilt(env, a[i]), Rebuilt(env, b[i]), a[i].prev, b[i].prev, Json.MembersAscend);
  }

  /** Where row i of `a` holds no bar at all there is no condition on remarshalling or on the other log. */
  lemma LastTagFixesBarless(env: Env, a: seq<Row>, b: seq<Row>, i: nat)
    requires Intact(env, a) && Intact(env, b) && LastTag(a) == LastTag(b)
    requires NoCollision(env, Messages(env, a) + Messages(env, b))
    requires NoGenesis(env, Messages(env, a) + Messages(env, b))
    requires i < |a| && NoBars(Rebuilt(env, a[i]))
    ensures |a| == |b|
    ensures Rebuilt(env, a[i]) == Rebuilt(env, b[i]) && a[i].prev == b[i].prev && a[i].hmac == b[i].hmac
  {
    LastTagFixesHistory(env, a, b);
    NoBarsDetermined(Rebuilt(env, a[i]), Rebuilt(env, b[i]), a[i].prev, b[i].prev);
  }

  /** When the free fields of both rows are plain and all payloads are JSON, bars in the payloads do no
      harm: both logs say the same. */
  lemma PlainLogsAgree(env: Env, a: seq<Row>, b: seq<Row>, i: nat)
    requires Intact(env, a) && Intact(env, b) && LastTag(a) == LastTag(b)
    requires NoCollision(env, Messages(env, a) + Messages(env, b))
    requires NoGenesis(env, Messages(env, a) + Messages(env, b))
    requires i < |a|
    requires PlainFields(Rebuilt(env, a[i])) && ReadsJson(env, a[i])
    requires |a| == |b| ==> PlainFields(Rebuilt(env, b[i])) && ReadsJson(env, b[i])
    ensures |a| == |b|
    ensures Rebuilt(env, a[i]) == Rebuilt(env, b[i])
  {
    LastTagFixesHistory(env, a, b);
    var cb: Json.Json :| Reread(env, a[i].content.before) == Json.Marshal(cb);
    var ca: Json.Json :| Reread(env, a[i].content.after) == Json.Marshal(ca);
    var db: Json.Json :| Reread(env, b[i].content.before) == Json.Marshal(db);
    var da: Json.Json :| Reread(env, b[i].content.after) == Json.Marshal(da);
    CanonicalizeInjective(Rebuilt(env, a[i]), Rebuilt(env, b[i]),
                          a[i].prev, b[i].prev, cb, ca, db, da);
  }

  /** A row that keeps the canonical bytes and the tags can take the place of row k in any intact log. */
  lemma SameBytesPass(env: Env, rows: seq<Row>, k: nat, row: Row)
    requires Intact(env, rows) && k < |rows|
    requires row.prev == rows[k].prev && row.hmac == rows[k].hmac && Message(env, row) == Message(env, rows[k])
    ensures Intact(env, rows[k := row])
  {
    var changed := rows[k := row];
    assert RowOk(env, rows, k);
    forall i | 0 <= i < |rows|
      ensures RowOk(env, changed, i)
    {
      assert RowOk(env, rows, i);
    }
  }

  /** A bar in the address, the action or the resource of a logged row: with any remarshalling another
      row, that the table admits, can take its place with all tags kept, and the log stays intact. */
  lemma BarsReplaceable(env: Env, rows: seq<Row>, k: nat) returns (row: Row)
    requires Intact(env, rows) && k < |rows|
    requires !NoBar(rows[k].content.sourceIp) || !NoBar(rows[k].content.action) || !NoBar(rows[k].content.resource)
    ensures row.content != rows[k].content && Intact(env, rows[k := row])
    ensures row == rows[k].(content := row.content)
    ensures row.content.actorKind == rows[k].content.actorKind && row.content.result == rows[k].content.result
  {
    hide Canonicalize;
    var d := BarsCollide(Rebuilt(env, rows[k]), rows[k].prev);
    row := rows[k].(content := rows[k].content.(sourceIp := d.sourceIp, action := d.action, resource := d.resource));
    assert Rebuilt(env, row) == d;
    SameBytesPass(env, rows, k, row);
  }

  /** A row that says something else can take the place of row k with all tags kept. */
  ghost predicate Stands(env: Env, rows: seq<Row>, k: nat, row: Row)
    requires k < |rows|
  {
    && AdmittedRow(row) && row.id == rows[k].id && row.prev == rows[k].prev && row.hmac == rows[k].hmac
    && Rebuilt(env, row) != Rebuilt(env, rows[k]) && Intact(env, rows[k := row])
  }

  /** Another reading of the bytes gives a row that stands in. */
  lemma OtherReadingStands(env: Env, rows: seq<Row>, k: nat) returns (row: Row)
    requires Intact(env, rows) && k < |rows| && WritesJson(env) && AdmittedRow(rows[k])
    requires !ReadOneWay(env, rows[k])
    ensures Stands(env, rows, k, row) && Message(env, row) == Message(env, rows[k])
  {
    hide OneReading, Canonicalize;
    RebuiltFormed(env, rows[k]);
    var d := OtherReading(Rebuilt(env, rows[k]), rows[k].prev, Json.MembersAscend);
    row := rows[k].(content := d.With(Some(d.before), Some(d.after)));
    assert Rebuilt(env, row) == d;
    SameBytesPass(env, rows, k, row);
  }

  /** Exactly the rows whose bytes are read in one way only are safe: every row of an intact log can be
      replaced by another that the table admits, with its tags kept and Verify none the wiser, unless its
      bytes have one reading; then only a collision of the MAC could do it. */
  lemma ReplaceableExactly(env: Env, rows: seq<Row>, k: nat)
    requires Intact(env, rows) && k < |rows| && WritesJson(env) && AdmittedRow(rows[k])
    ensures !ReadOneWay(env, rows[k]) <==>
      exists row :: Stands(env, rows, k, row) && NoCollision(env, {Message(env, row), Message(env, rows[k])})
  {
    hide OneReading, Formed, Canonicalize;
    if !ReadOneWay(env, rows[k]) {
      var row := OtherReadingStands(env, rows, k);
    } else {
      forall row | Stands(env, rows, k, row) && NoCollision(env, {Message(env, row), Message(env, rows[k])})
        ensures false
      {
        assert RowOk(env, rows, k) && RowOk(env, rows[k := row], k);
        RebuiltFormed(env, row);
        RebuiltFormed(env, rows[k]);
        OneReadingDetermined(Rebuilt(env, rows[k]), Rebuilt(env, row), rows[k].prev, row.prev, Json.MembersAscend);
      }
    }
  }

  /** Rows put together from the messages of an intact log, in any order, repeated or left out, pass
      exactly when they tell a beginning of its history: nothing can be inserted, reordered or replayed. */
  lemma OnlyPrefixesPass(env: Env, a: seq<Row>, b: seq<Row>)
    requires Intact(env, a) && Messages(env, b) <= Messages(env, a)
    requires NoCollision(env, Messages(env, a)) && NoGenesis(env, Messages(env, a))
    ensures Intact(env, b) <==> exists n: nat :: n <= |a| && SameHistory(env, a[..n], b)
  {
    hide Message, NoCollision, NoGenesis;
    if Intact(env, b) {
      var n := EndOfPrefix(env, a, b);
      IntactPrefix(env, a, n);
      SubsetHypotheses(env, Messages(env, a[..n]) + Messages(env, b), Messages(env, a));
      LastTagFixesHistory(env, a[..n], b);
    }
    if n: nat :| n <= |a| && SameHistory(env, a[..n], b) {
      forall i | 0 <= i < |b|
        ensures RowOk(env, b, i)
      {
        assert RowOk(env, a, i);
        assert a[..n][i] == a[i] && (i > 0 ==> a[..n][i - 1] == a[i - 1]);
      }
    }
  }

  lemma SubsetHypotheses(env: Env, small: set<string>, large: set<string>)
    requires small <= large && NoCollision(env, large) && NoGenesis(env, large)
    ensures NoCollision(env, small) && NoGenesis(env, small)
  {
  }

  lemma EndOfPrefix(env: Env, a: seq<Row>, b: seq<Row>) returns (n: nat)
    requires Intact(env, a) && Intact(env, b) && Messages(env, b) <= Messages(env, a)
    ensures n <= |a| && LastTag(a[..n]) == LastTag(b)
  {
    if b == [] {
      return 0;
    }
    LastMessage(env, b);
    var i :| 0 <= i < |a| && Message(env, a[i]) == Message(env, b[|b| - 1]);
    assert RowOk(env, a, i);
    n := i + 1;
  }

  // ---- Where the verifier stops ----

  /** All tags of an intact chain are different from each other and from genesis. */
  lemma TagsDistinct(env: Env, rows: seq<Row>, i: nat, j: nat)
    requires Intact(env, rows) && NoCollision(env, Messages(env, rows)) && NoGenesis(env, Messages(env, rows))
    requires i < j <= |rows|
    ensures PrevTag(rows, i) != PrevTag(rows, j)
  {
    if PrevTag(rows, i) == PrevTag(rows, j) {
      IntactPrefix(env, rows, i);
      IntactPrefix(env, rows, j);
      assert LastTag(rows[..i]) == LastTag(rows[..j]);
      LastTagFixesHistory(env, rows[..i], rows[..j]);
      assert false;
    }
  }

  /** Changing what row k says, with its tag kept, makes Verify return exactly the id of row k. */
  lemma TamperingLocalised(env: Env, rows: seq<Row>, k: nat, row: Row)
    requires Intact(env, rows) && k < |rows|
    requires row.id == rows[k].id && row.hmac == rows[k].hmac
    requires Message(env, row) != Message(env, rows[k])
    requires NoCollision(env, {Message(env, row), Message(env, rows[k])})
    ensures Verdict(env, rows[k := row]) == rows[k].id
  {
    var changed := rows[k := row];
    assert RowOk(env, rows, k);
    forall i | 0 <= i < k
      ensures RowOk(env, changed, i)
    {
      assert RowOk(env, rows, i);
    }
    VerdictIs(env, changed, k);
  }

  /** Deleting the rows i..j-1 of an intact log, with a row after them, makes Verify return the id of
      that next row; deleting rows at the end goes unnoticed. */
  lemma DeletionLocalised(env: Env, rows: seq<Row>, i: nat, j: nat)
    requires Intact(env, rows) && Ascending(rows) && i < j <= |rows|
    requires NoCollision(env, Messages(env, rows)) && NoGenesis(env, Messages(env, rows))
    ensures Verdict(env, rows[..i] + rows[j..]) == if j < |rows| then rows[j].id else 0
  {
    var left := rows[..i] + rows[j..];
    forall k | 0 <= k < i
      ensures RowOk(env, left, k)
    {
      assert RowOk(env, rows, k);
    }
    if j < |rows| {
      TagsDistinct(env, rows, i, j);
      assert RowOk(env, rows, j);
      assert left[i] == rows[j] && PrevTag(left, i) == PrevTag(rows, i);
      VerdictIs(env, left, i);
    }
  }
}
