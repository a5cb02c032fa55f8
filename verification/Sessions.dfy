/** Sliding sessions. The clock is in nanoseconds; rows hold milliseconds, truncated. A validation is
    a SELECT, then a look at the clock with the checks, then an UPDATE; a revocation is a SELECT and an
    UPDATE. Calls may interleave between any two of these. */
module Sessions {
  import opened Options
  import opened GoText

  const NS_PER_MS: int := 1_000_000
  const IDLE_TTL_MS: int := 30 * 60 * 1000
  const HARD_TTL_MS: int := 12 * 60 * 60 * 1000
  const IDLE_TTL: int := IDLE_TTL_MS * NS_PER_MS
  const HARD_TTL: int := HARD_TTL_MS * NS_PER_MS

  type SessionId = string
  type CallerId = nat

  datatype Row = Row(
    operatorId: string, ip: string, userAgent: string,
    createdAt: int, lastSeen: int, expiresAt: int, revokedAt: Option<int>)

  /** Time.UnixMilli rounds down, before 1970 as well. */
  function Millis(ns: int): int {
    ns / NS_PER_MS
  }

  function Min(a: int, b: int): int {
    if a < b then a else b
  }

  function NewRow(operatorId: string, ip: string, userAgent: string, now: int): Row {
    Row(operatorId, ip, userAgent, Millis(now), Millis(now), Millis(now + IDLE_TTL), None)
  }

  datatype Rejection = Revoked | Expired | IpMismatch | AgentMismatch

  function Lower(c: char): char {
    if 'A' <= c <= 'Z' then (c as int + 32) as char else c
  }

  /** strings.EqualFold on ASCII text. */
  predicate EqualFold(a: string, b: string) {
    |a| == |b| && forall i :: 0 <= i < |a| ==> Lower(a[i]) == Lower(b[i])
  }

  function RejectionText(why: Rejection): string {
    match why
    case Revoked => "session revoked"
    case Expired => "session expired"
    case IpMismatch => "session ip mismatch"
    case AgentMismatch => "session user-agent mismatch"
  }

  predicate IsLetter(c: char) {
    'A' <= c <= 'Z' || 'a' <= c <= 'z'
  }

  /** The same letter in the other case, 32 places up or down in ASCII. */
  predicate OtherCase(c: char, d: char) {
    ('A' <= c <= 'Z' && d as int == c as int + 32) || ('a' <= c <= 'z' && d as int == c as int - 32)
  }

  /** Equal under folding are exactly the texts that differ, if at all, in the case of letters. */
  lemma EqualFoldExactly(a: string, b: string)
    ensures EqualFold(a, b) <==> |a| == |b| && forall i :: 0 <= i < |a| ==> b[i] == a[i] || OtherCase(a[i], b[i])
  {
  }

  lemma EqualFoldEquivalence(a: string, b: string, c: string)
    ensures EqualFold(a, a)
    ensures EqualFold(a, b) ==> EqualFold(b, a)
    ensures EqualFold(a, b) && EqualFold(b, c) ==> EqualFold(a, c)
  {
  }

  predicate NoLetters(s: string) {
    forall i :: 0 <= i < |s| ==> !IsLetter(s[i])
  }

  /** Text without letters folds to itself only. */
  lemma EqualFoldPlain(a: string, b: string)
    requires NoLetters(a) || NoLetters(b)
    ensures EqualFold(a, b) <==> a == b
  {
    EqualFoldExactly(a, b);
    EqualFoldExactly(b, a);
    EqualFoldEquivalence(a, b, a);
    EqualFoldEquivalence(b, a, b);
  }

  /** The checks of ValidateSession on the row it read, in its order. */
  function Judge(row: Row, now: int, ip: string, userAgent: string): Option<Rejection> {
    if row.revokedAt.Some? then Some(Revoked)
    else if now > row.expiresAt * NS_PER_MS then Some(Expired)
    else if ip != "" && !EqualFold(ip, row.ip) then Some(IpMismatch)
    else if userAgent != "" && userAgent != row.userAgent then Some(AgentMismatch)
    else None
  }

  /** The expiry that ValidateSession computes from the creation time it read, in nanoseconds. */
  function NewExpiry(createdAt: int, now: int): int {
    var maxExpiry := createdAt * NS_PER_MS + HARD_TTL;
    if now + IDLE_TTL > maxExpiry then maxExpiry else now + IDLE_TTL
  }

  /** The UPDATE of ValidateSession. */
  function Touch(row: Row, createdAt: int, now: int): Row {
    row.(lastSeen := Millis(now), expiresAt := Millis(NewExpiry(createdAt, now)))
  }

  /** UPDATE ... SET revoked_at=? WHERE revoked_at IS NULL */
  function RevokeRow(row: Row, now: int): Row {
    if row.revokedAt == None then row.(revokedAt := Some(Millis(now))) else row
  }

  /** The expiry is exact in milliseconds. */
  predicate ExpiryExact(row: Row) {
    row.expiresAt == Min(row.lastSeen + IDLE_TTL_MS, row.createdAt + HARD_TTL_MS)
  }

  lemma MillisShift(ns: int, ms: int)
    ensures Millis(ns + ms * NS_PER_MS) == Millis(ns) + ms
    ensures Millis(ms * NS_PER_MS) == ms
    ensures Millis(ns) * NS_PER_MS <= ns < (Millis(ns) + 1) * NS_PER_MS
  {
  }

  lemma NewRowExact(operatorId: string, ip: string, userAgent: string, now: int)
    ensures ExpiryExact(NewRow(operatorId, ip, userAgent, now))
  {
  }

  lemma TouchExact(row: Row, now: int)
    ensures ExpiryExact(Touch(row, row.createdAt, now))
  {
  }

  // ---- Overlapping calls ----

  /** Where a call is between its statements. A validation holds the row it read, and after its checks
      also the clock reading they passed with. */
  datatype Pending =
    | Validating(id: SessionId, snapshot: Row, ip: string, userAgent: string)
    | Touching(id: SessionId, snapshot: Row, now: int)
    | Revoking(id: SessionId)

  datatype Store = Store(sessions: map<SessionId, Row>, pending: map<CallerId, Pending>)

  datatype Step =
    | Create(id: SessionId, operatorId: string, ip: string, userAgent: string, now: int)
    | ReadToValidate(c: CallerId, id: SessionId, ip: string, userAgent: string)
    | Decide(c: CallerId, now: int)
    | WriteTouch(c: CallerId)
    | ReadToRevoke(c: CallerId, id: SessionId)
    | WriteRevoked(c: CallerId, now: int)
    | Abandon(c: CallerId)                   // a statement fails: the call returns its error

  predicate Enabled(s: Store, step: Step) {
    match step
    case Create(id, _, _, _, _) => id !in s.sessions
    case ReadToValidate(c, id, _, _) => c !in s.pending && id in s.sessions
    case Decide(c, _) => c in s.pending && s.pending[c].Validating?
    case WriteTouch(c) => c in s.pending && s.pending[c].Touching?
    case ReadToRevoke(c, id) => c !in s.pending && id in s.sessions
    case WriteRevoked(c, _) => c in s.pending && s.pending[c].Revoking?
    case Abandon(c) => c in s.pending
  }

  /** What the checks of a pending validation say at a clock reading. */
  function Verdict(call: Pending, now: int): Option<Rejection>
    requires call.Validating?
  {
    Judge(call.snapshot, now, call.ip, call.userAgent)
  }

  function Apply(s: Store, step: Step): Store
    requires Enabled(s, step)
  {
    match step
    case Create(id, operatorId, ip, userAgent, now) =>
      s.(sessions := s.sessions[id := NewRow(operatorId, ip, userAgent, now)])
    case ReadToValidate(c, id, ip, userAgent) =>
      s.(pending := s.pending[c := Validating(id, s.sessions[id], ip, userAgent)])
    case Decide(c, now) =>
      var call := s.pending[c];
      s.(pending := if Verdict(call, now) == None then s.pending[c := Touching(call.id, call.snapshot, now)] else s.pending - {c})
    case WriteTouch(c) =>
      var call := s.pending[c];
      Store(if call.id in s.sessions
            then s.sessions[call.id := Touch(s.sessions[call.id], call.snapshot.createdAt, call.now)] else s.sessions,
            s.pending - {c})
    case ReadToRevoke(c, id) =>
      s.(pending := s.pending[c := Revoking(id)])
    case WriteRevoked(c, now) =>
      var id := s.pending[c].id;
      Store(if id in s.sessions then s.sessions[id := RevokeRow(s.sessions[id], now)] else s.sessions,
            s.pending - {c})
    case Abandon(c) =>
      s.(pending := s.pending - {c})
  }

  /** Consecutive steps from any state. */
  ghost predicate IsPath(states: seq<Store>, steps: seq<Step>) {
    && |states| == |steps| + 1
    && forall i :: 0 <= i < |steps| ==> Enabled(states[i], steps[i]) && states[i + 1] == Apply(states[i], steps[i])
  }

  ghost predicate IsRun(states: seq<Store>, steps: seq<Step>) {
    IsPath(states, steps) && states[0] == Store(map[], map[])
  }

  /** A row that a call read: exact, and of the same creation as the row in the table. */
  ghost predicate SnapshotOk(s: Store, id: SessionId, snapshot: Row) {
    id in s.sessions && ExpiryExact(snapshot) && snapshot.createdAt == s.sessions[id].createdAt
  }

  ghost predicate Inv(s: Store) {
    && (forall id :: id in s.sessions ==> ExpiryExact(s.sessions[id]))
    && (forall c :: c in s.pending && !s.pending[c].Revoking? ==> SnapshotOk(s, s.pending[c].id, s.pending[c].snapshot))
  }

  lemma InvStep(s: Store, step: Step)
    requires Inv(s) && Enabled(s, step)
    ensures Inv(Apply(s, step))
  {
    match step
    case Create(_, operatorId, ip, userAgent, now) => NewRowExact(operatorId, ip, userAgent, now);
    case WriteTouch(c) => TouchExact(s.sessions[s.pending[c].id], s.pending[c].now);
    case _ =>
  }

  /** Under any interleaving of reads and updates, with any clock readings, every row has exactly
      expires_at = min(last_seen + 30 min, created_at + 12 h) in milliseconds. */
  lemma {:induction false} ExpiryAlwaysExact(states: seq<Store>, steps: seq<Step>, n: nat)
    requires IsRun(states, steps) && n < |states|
    ensures Inv(states[n])
    ensures forall id :: id in states[n].sessions ==> ExpiryExact(states[n].sessions[id])
  {
    if n > 0 {
      ExpiryAlwaysExact(states, steps, n - 1);
      InvStep(states[n - 1], steps[n - 1]);
    }
  }

  /** A session is never removed and revoked_at, once set, is never cleared or moved, not even by an
      update that was decided before the revocation. */
  lemma {:induction false} RevokedForever(states: seq<Store>, steps: seq<Step>, m: nat, n: nat, id: SessionId)
    requires IsPath(states, steps) && m <= n < |states|
    requires id in states[m].sessions && states[m].sessions[id].revokedAt.Some?
    ensures id in states[n].sessions && states[n].sessions[id].revokedAt == states[m].sessions[id].revokedAt
    decreases n
  {
    if m < n {
      RevokedForever(states, steps, m, n - 1, id);
      assert Enabled(states[n - 1], steps[n - 1]) && states[n] == Apply(states[n - 1], steps[n - 1]);
    }
  }

  /** The step is one with which caller `c` goes on after its SELECT. */
  predicate GoesOn(step: Step, c: CallerId) {
    (step.Decide? || step.WriteTouch? || step.WriteRevoked? || step.Abandon?) && step.c == c
  }

  /** The snapshot of a caller stays until its own next step. */
  lemma {:induction false} SnapshotKept(states: seq<Store>, steps: seq<Step>, k: nat, n: nat, c: CallerId)
    requires IsPath(states, steps) && k <= n < |states| && c in states[k].pending
    requires forall j :: k <= j < n ==> !GoesOn(steps[j], c)
    ensures c in states[n].pending && states[n].pending[c] == states[k].pending[c]
    decreases n
  {
    if k < n {
      SnapshotKept(states, steps, k, n - 1, c);
      assert Enabled(states[n - 1], steps[n - 1]) && states[n] == Apply(states[n - 1], steps[n - 1]);
    }
  }

  /** A validation that reads after the revocation is rejected whenever it decides, and writes nothing. */
  lemma ReadAfterRevokeFails(states: seq<Store>, steps: seq<Step>, m: nat, k: nat, n: nat)
    requires IsPath(states, steps) && m <= k < n < |steps|
    requires steps[k].ReadToValidate? && steps[n].Decide? && steps[n].c == steps[k].c
    requires forall j :: k < j < n ==> !GoesOn(steps[j], steps[k].c)
    requires steps[k].id in states[m].sessions && states[m].sessions[steps[k].id].revokedAt.Some?
    ensures steps[n].c in states[n].pending && states[n].pending[steps[n].c].Validating?
    ensures Verdict(states[n].pending[steps[n].c], steps[n].now) == Some(Revoked)
    ensures states[n + 1].sessions == states[n].sessions && steps[n].c !in states[n + 1].pending
  {
    RevokedForever(states, steps, m, k, steps[k].id);
    assert Enabled(states[k], steps[k]) && states[k + 1] == Apply(states[k], steps[k]);
    SnapshotKept(states, steps, k + 1, n, steps[k].c);
    assert Enabled(states[n], steps[n]) && states[n + 1] == Apply(states[n], steps[n]);
  }

  // ---- The sliding window, in any interleaving ----

  /** The step is a validation of `id` that passes its checks. */
  predicate Passes(s: Store, step: Step, id: SessionId) {
    && step.Decide? && step.c in s.pending && s.pending[step.c].Validating? && s.pending[step.c].id == id
    && Verdict(s.pending[step.c], step.now) == None
  }

  /** Step k creates the session or is a validation of it that passes: the times a row can owe its
      last_seen to. */
  ghost predicate Seen(states: seq<Store>, steps: seq<Step>, k: nat, id: SessionId) {
    k < |steps| <= |states| && ((steps[k].Create? && steps[k].id == id) || Passes(states[k], steps[k], id))
  }

  /** Some step before n saw the session at a time that is stored as `lastSeen`. */
  ghost predicate SeenAt(states: seq<Store>, steps: seq<Step>, n: nat, id: SessionId, lastSeen: int) {
    exists k: nat :: k < n && Seen(states, steps, k, id) && lastSeen == Millis(steps[k].now)
  }

  /** Every last_seen, in the table or in a snapshot, was the reading of an earlier passing validation or
      of the creation. */
  ghost predicate AllSeen(states: seq<Store>, steps: seq<Step>, n: nat)
    requires n < |states|
  {
    && (forall id :: id in states[n].sessions ==> SeenAt(states, steps, n, id, states[n].sessions[id].lastSeen))
    && (forall c :: c in states[n].pending && states[n].pending[c].Validating? ==>
         SeenAt(states, steps, n, states[n].pending[c].id, states[n].pending[c].snapshot.lastSeen))
    && (forall c :: c in states[n].pending && states[n].pending[c].Touching? ==>
         SeenAt(states, steps, n, states[n].pending[c].id, Millis(states[n].pending[c].now)))
  }

  lemma SeenLater(states: seq<Store>, steps: seq<Step>, n: nat, id: SessionId, t: int)
    requires n < |steps| <= |states|
    requires SeenAt(states, steps, n, id, t) || (Seen(states, steps, n, id) && t == Millis(steps[n].now))
    ensures SeenAt(states, steps, n + 1, id, t)
  {
    if SeenAt(states, steps, n, id, t) {
      var k: nat :| k < n && Seen(states, steps, k, id) && t == Millis(steps[k].now);
      assert k < n + 1;
    }
  }

  lemma {:induction false} AlwaysSeen(states: seq<Store>, steps: seq<Step>, n: nat)
    requires IsRun(states, steps) && n < |states|
    ensures AllSeen(states, steps, n)
  {
    hide SeenAt, Judge;
    if n > 0 {
      var m := n - 1;
      AlwaysSeen(states, steps, m);
      assert Enabled(states[m], steps[m]) && states[n] == Apply(states[m], steps[m]);
      forall id, t | SeenAt(states, steps, m, id, t) || (Seen(states, steps, m, id) && t == Millis(steps[m].now))
        ensures SeenAt(states, steps, n, id, t)
      {
        SeenLater(states, steps, m, id, t);
      }
      if steps[m].Decide? && Verdict(states[m].pending[steps[m].c], steps[m].now) == None {
        assert Seen(states, steps, m, states[m].pending[steps[m].c].id);
      }
      if steps[m].Create? {
        assert Seen(states, steps, m, steps[m].id);
      }
    }
  }

  /** The step that created the session. */
  lemma {:induction false} Creation(states: seq<Store>, steps: seq<Step>, n: nat, id: SessionId) returns (k: nat)
    requires IsRun(states, steps) && n < |states| && id in states[n].sessions
    ensures k < n && steps[k].Create? && steps[k].id == id && states[n].sessions[id].createdAt == Millis(steps[k].now)
  {
    assert Enabled(states[n - 1], steps[n - 1]) && states[n] == Apply(states[n - 1], steps[n - 1]);
    ExpiryAlwaysExact(states, steps, n - 1);
    if id in states[n - 1].sessions {
      k := Creation(states, steps, n - 1, id);
    } else {
      k := n - 1;
    }
  }

  /** In any interleaving every validation that passes reads its clock within 12 hours of the creation,
      and within 30 minutes of an earlier validation that passed or of the creation. */
  lemma WindowAlways(states: seq<Store>, steps: seq<Step>, n: nat, id: SessionId)
    requires IsRun(states, steps) && n < |steps| && Passes(states[n], steps[n], id)
    ensures exists k: nat :: k < n && steps[k].Create? && steps[k].id == id && steps[n].now <= steps[k].now + 43_200_000_000_000
    ensures exists k: nat :: k < n && Seen(states, steps, k, id) && steps[n].now <= steps[k].now + 1_800_000_000_000
  {
    ExpiryAlwaysExact(states, steps, n);
    AlwaysSeen(states, steps, n);
    var snapshot := states[n].pending[steps[n].c].snapshot;
    var k := Creation(states, steps, n, id);
    MillisShift(steps[k].now, 0);
    assert steps[n].now <= steps[k].now + 43_200_000_000_000;
    var j: nat :| j < n && Seen(states, steps, j, id) && snapshot.lastSeen == Millis(steps[j].now);
    MillisShift(steps[j].now, 0);
    assert steps[n].now <= steps[j].now + 1_800_000_000_000;
  }

  // ---- Calls that do not overlap ----

  datatype Call = Validate(now: int, ip: string, userAgent: string) | Revoke(now: int)

  /** One uninterrupted call on a session row. */
  function Perform(row: Row, call: Call): Row {
    match call
    case Validate(now, ip, userAgent) => if Judge(row, now, ip, userAgent) == None then Touch(row, row.createdAt, now) else row
    case Revoke(now) => RevokeRow(row, now)
  }

  /** The row before call n. */
  function RowBefore(row: Row, calls: seq<Call>, n: nat): Row
    requires n <= |calls|
  {
    if n == 0 then row else Perform(RowBefore(row, calls, n - 1), calls[n - 1])
  }

  predicate Accepted(row: Row, calls: seq<Call>, i: nat)
    requires i < |calls|
  {
    calls[i].Validate? && Judge(RowBefore(row, calls, i), calls[i].now, calls[i].ip, calls[i].userAgent) == None
  }

  predicate RejectedAsExpired(row: Row, calls: seq<Call>, i: nat)
    requires i < |calls|
  {
    calls[i].Validate? && Judge(RowBefore(row, calls, i), calls[i].now, calls[i].ip, calls[i].userAgent) == Some(Expired)
  }

  /** The time of the last accepted call before call n, or of the creation. */
  function LastAccepted(row: Row, created: int, calls: seq<Call>, n: nat): int
    requires n <= |calls|
  {
    if n == 0 then created
    else if Accepted(row, calls, n - 1) then calls[n - 1].now
    else LastAccepted(row, created, calls, n - 1)
  }

  /** The time of the first revocation among the first n calls, as stored. */
  function FirstRevocation(calls: seq<Call>, n: nat): (r: Option<int>)
    requires n <= |calls|
    ensures r.Some? <==> RevokedBefore(calls, n)
    ensures r.Some? ==> exists i :: 0 <= i < n && calls[i].Revoke? && r.value == Millis(calls[i].now) && !RevokedBefore(calls, i)
  {
    if n == 0 then None
    else
      var earlier := FirstRevocation(calls, n - 1);
      if earlier.Some? then earlier
      else if calls[n - 1].Revoke? then Some(Millis(calls[n - 1].now))
      else None
  }

  predicate RevokedBefore(calls: seq<Call>, n: nat)
    requires n <= |calls|
  {
    exists i :: 0 <= i < n && calls[i].Revoke?
  }

  lemma {:induction false} RowHistory(operatorId: string, ip: string, userAgent: string, created: int, calls: seq<Call>, n: nat)
    requires n <= |calls|
    ensures var row := NewRow(operatorId, ip, userAgent, created);
      var before := RowBefore(row, calls, n);
      && before.createdAt == Millis(created) && before.ip == ip && before.userAgent == userAgent
      && before.lastSeen == Millis(LastAccepted(row, created, calls, n))
      && ExpiryExact(before)
      && before.revokedAt == FirstRevocation(calls, n)
  {
    if n == 0 {
      NewRowExact(operatorId, ip, userAgent, created);
    } else {
      RowHistory(operatorId, ip, userAgent, created, calls, n - 1);
      var row := NewRow(operatorId, ip, userAgent, created);
      if Accepted(row, calls, n - 1) {
        TouchExact(RowBefore(row, calls, n - 1), calls[n - 1].now);
      }
    }
  }

  /** Exactly when a call is accepted, from the history of calls alone: not revoked before, address and
      agent as at creation, and not after the truncated bounds of 30 minutes and 12 hours. */
  lemma AcceptedExactly(operatorId: string, ip: string, userAgent: string, created: int, calls: seq<Call>, i: nat)
    requires i < |calls| && calls[i].Validate?
    ensures var row := NewRow(operatorId, ip, userAgent, created);
      Accepted(row, calls, i) <==>
        && !RevokedBefore(calls, i)
        && calls[i].now <= Millis(LastAccepted(row, created, calls, i)) * NS_PER_MS + IDLE_TTL
        && calls[i].now <= Millis(created) * NS_PER_MS + HARD_TTL
        && (calls[i].ip == "" || EqualFold(calls[i].ip, ip))
        && (calls[i].userAgent == "" || calls[i].userAgent == userAgent)
  {
    RowHistory(operatorId, ip, userAgent, created, calls, i);
  }

  /** Every accepted call is within 12 hours of the creation and within 30 minutes of the previous
      accepted call, or of the creation. */
  lemma SlidingWindow(operatorId: string, ip: string, userAgent: string, created: int, calls: seq<Call>, i: nat)
    requires i < |calls| && Accepted(NewRow(operatorId, ip, userAgent, created), calls, i)
    ensures calls[i].now <= created + 43_200_000_000_000
    ensures calls[i].now <= LastAccepted(NewRow(operatorId, ip, userAgent, created), created, calls, i) + 1_800_000_000_000
  {
    AcceptedExactly(operatorId, ip, userAgent, created, calls, i);
    MillisShift(created, 0);
    MillisShift(LastAccepted(NewRow(operatorId, ip, userAgent, created), created, calls, i), 0);
  }

  lemma {:induction false} ExpiryUntouched(row: Row, calls: seq<Call>, i: nat, n: nat)
    requires i < n <= |calls| && RejectedAsExpired(row, calls, i)
    requires forall a, b :: 0 <= a < b < |calls| ==> calls[a].now <= calls[b].now
    ensures RowBefore(row, calls, n).expiresAt == RowBefore(row, calls, i).expiresAt
    ensures forall j :: i <= j < n ==> !Accepted(row, calls, j)
  {
    if i + 1 < n {
      ExpiryUntouched(row, calls, i, n - 1);
    }
  }

  /** With a clock that does not run backwards, after one rejection as expired no call is accepted. */
  lemma ExpiredForever(row: Row, calls: seq<Call>, i: nat, j: nat)
    requires i <= j < |calls| && RejectedAsExpired(row, calls, i)
    requires forall a, b :: 0 <= a < b < |calls| ==> calls[a].now <= calls[b].now
    ensures !Accepted(row, calls, j)
  {
    ExpiryUntouched(row, calls, i, j + 1);
  }

  /** Nothing interrupts a validation: its three steps do what Perform does. */
  lemma UninterruptedIsPerform(s: Store, c: CallerId, id: SessionId, ip: string, userAgent: string, now: int)
    requires c !in s.pending && id in s.sessions
    ensures var s1 := Apply(s, ReadToValidate(c, id, ip, userAgent));
      Enabled(s1, Decide(c, now)) &&
      var s2 := Apply(s1, Decide(c, now));
      var row := Perform(s.sessions[id], Validate(now, ip, userAgent));
      if Judge(s.sessions[id], now, ip, userAgent) == None
      then Enabled(s2, WriteTouch(c)) && Apply(s2, WriteTouch(c)).sessions == s.sessions[id := row]
      else s2 == s && s.sessions[id] == row
  {
    var s1 := Apply(s, ReadToValidate(c, id, ip, userAgent));
    assert s1.pending - {c} == s.pending;
  }

  /** A revocation without interruption does too, whatever other calls are under way, and a session can be
      created under any new id. */
  lemma UninterruptedRevocation(s: Store, c: CallerId, id: SessionId, now: int)
    requires c !in s.pending && id in s.sessions
    ensures Enabled(s, ReadToRevoke(c, id))
    ensures var s1 := Apply(s, ReadToRevoke(c, id));
      Enabled(s1, WriteRevoked(c, now)) && Apply(s1, WriteRevoked(c, now)) == s.(sessions := s.sessions[id := Perform(s.sessions[id], Revoke(now))])
  {
    assert Apply(s, ReadToRevoke(c, id)).pending - {c} == s.pending;
  }

  lemma CreationAdds(s: Store, id: SessionId, operatorId: string, ip: string, userAgent: string, now: int)
    requires id !in s.sessions
    ensures Enabled(s, Create(id, operatorId, ip, userAgent, now))
    ensures Apply(s, Create(id, operatorId, ip, userAgent, now)) ==
      s.(sessions := s.sessions[id := Row(operatorId, ip, userAgent, Millis(now), Millis(now), Millis(now) + 1_800_000, None)])
  {
    MillisShift(now, IDLE_TTL_MS);
  }

  /** The UPDATE of a pending revocation sets the time of a row that has none, and leaves any other. */
  lemma RevocationWrites(s: Store, c: CallerId, now: int)
    requires c in s.pending && s.pending[c].Revoking? && s.pending[c].id in s.sessions
    ensures Enabled(s, WriteRevoked(c, now))
    ensures var row := s.sessions[s.pending[c].id];
      Apply(s, WriteRevoked(c, now)) ==
        Store(s.sessions[s.pending[c].id := if row.revokedAt.Some? then row else row.(revokedAt := Some(Millis(now)))], s.pending - {c})
  {
  }

  /** A call can fail before any of its statements, and then leaves the table as it is. */
  lemma FailureChangesNothing(s: Store, c: CallerId)
    requires c in s.pending
    ensures Enabled(s, Abandon(c)) && Apply(s, Abandon(c)) == s.(pending := s.pending - {c})
  {
  }

  // ---- Exactly when a session can still be used ----

  predicate UnexpiredAt(row: Row, t: int) {
    row.revokedAt == None && t <= row.expiresAt * NS_PER_MS
  }

  /** What keeps a session usable at time `t`: its row; a call that read the row earlier and whose checks
      pass at `t`; or a call that has already passed its checks and is still to write an expiry not
      before `t` over a row that is not revoked. */
  ghost predicate Usable(s: Store, id: SessionId, t: int)
    requires id in s.sessions
  {
    || UnexpiredAt(s.sessions[id], t)
    || (exists c :: c in s.pending && ReadInTime(s.pending[c], id, t))
    || (s.sessions[id].revokedAt == None && exists c :: c in s.pending && WritesUntil(s.pending[c], id, t))
  }

  predicate ReadInTime(call: Pending, id: SessionId, t: int) {
    call.Validating? && call.id == id && Verdict(call, t) == None
  }

  predicate WritesUntil(call: Pending, id: SessionId, t: int) {
    call.Touching? && call.id == id && t <= Millis(NewExpiry(call.snapshot.createdAt, call.now)) * NS_PER_MS
  }

  /** From here on no validation of `id` reads a clock before `t`. */
  ghost predicate ClockFrom(states: seq<Store>, steps: seq<Step>, id: SessionId, t: int)
    requires IsPath(states, steps)
  {
    forall k :: 0 <= k < |steps| && steps[k].Decide? && steps[k].c in states[k].pending && states[k].pending[steps[k].c].id == id
      ==> t <= steps[k].now
  }

  ghost predicate SomePasses(states: seq<Store>, steps: seq<Step>, id: SessionId)
    requires IsPath(states, steps)
  {
    exists k :: 0 <= k < |steps| && Passes(states[k], steps[k], id)
  }

  lemma UnusableStep(s: Store, step: Step, id: SessionId, t: int)
    requires id in s.sessions && !Usable(s, id, t) && Enabled(s, step)
    requires step.Decide? && s.pending[step.c].id == id ==> t <= step.now
    ensures !Passes(s, step, id)
    ensures id in Apply(s, step).sessions && !Usable(Apply(s, step), id, t)
  {
    var next := Apply(s, step);
    if step.Decide? {
      assert s.pending[step.c].id == id ==> !ReadInTime(s.pending[step.c], id, t);
    }
    if step.WriteTouch? {
      assert s.pending[step.c].id == id && s.sessions[id].revokedAt == None ==> !WritesUntil(s.pending[step.c], id, t);
    }
    forall c | c in next.pending
      ensures !ReadInTime(next.pending[c], id, t)
      ensures s.sessions[id].revokedAt == None ==> !WritesUntil(next.pending[c], id, t)
    {
      assert c in s.pending ==> !ReadInTime(s.pending[c], id, t);
    }
  }

  lemma {:induction false} UnusableForever(states: seq<Store>, steps: seq<Step>, id: SessionId, t: int, n: nat)
    requires IsPath(states, steps) && id in states[0].sessions && !Usable(states[0], id, t)
    requires ClockFrom(states, steps, id, t) && n < |states|
    ensures id in states[n].sessions && !Usable(states[n], id, t)
    ensures forall k :: 0 <= k < n ==> !Passes(states[k], steps[k], id)
  {
    hide Usable, Passes;
    if n > 0 {
      UnusableForever(states, steps, id, t, n - 1);
      UnusableStep(states[n - 1], steps[n - 1], id, t);
    }
  }

  lemma {:induction false} FreshCaller(callers: set<CallerId>) returns (c: CallerId)
    ensures forall d :: d in callers ==> d < c
  {
    c := 0;
    if callers != {} {
      var d :| d in callers;
      c := FreshCaller(callers - {d});
      assert forall e :: e in callers ==> e == d || e in callers - {d};
      c := if d < c then c else d + 1;
    }
  }

  lemma ExtendPath(states: seq<Store>, steps: seq<Step>, step: Step) returns (longer: seq<Store>, more: seq<Step>)
    requires IsPath(states, steps) && Enabled(states[|steps|], step)
    ensures IsPath(longer, more) && more == steps + [step] && longer == states + [Apply(states[|steps|], step)]
  {
    longer, more := states + [Apply(states[|steps|], step)], steps + [step];
    forall i | 0 <= i < |more|
      ensures Enabled(longer[i], more[i]) && longer[i + 1] == Apply(longer[i], more[i])
    {
      if i < |steps| {
        assert longer[i] == states[i] && longer[i + 1] == states[i + 1] && more[i] == steps[i];
      }
    }
  }

  /** A usable session can be used: the continuation whose last step passes at time `t`. */
  lemma UsableIsUsed(s: Store, id: SessionId, t: int) returns (states: seq<Store>, steps: seq<Step>)
    requires id in s.sessions && Usable(s, id, t)
    ensures IsPath(states, steps) && states[0] == s && ClockFrom(states, steps, id, t) && SomePasses(states, steps, id)
  {
    states, steps := [s], [];
    if c :| c in s.pending && ReadInTime(s.pending[c], id, t) {
      states, steps := ExtendPath(states, steps, Decide(c, t));
      assert Passes(states[0], steps[0], id);
    } else {
      if !UnexpiredAt(s.sessions[id], t) {
        var c :| c in s.pending && WritesUntil(s.pending[c], id, t);
        states, steps := ExtendPath(states, steps, WriteTouch(c));
      }
      var n := |steps|;
      var c := FreshCaller(states[n].pending.Keys);
      states, steps := ExtendPath(states, steps, ReadToValidate(c, id, "", ""));
      states, steps := ExtendPath(states, steps, Decide(c, t));
      assert Passes(states[n + 1], steps[n + 1], id);
    }
  }

  /** In any state: some continuation in which all clocks have reached `t` has a validation of the
      session that passes, exactly when the session is usable at `t`. */
  lemma PassesAgainExactly(s: Store, id: SessionId, t: int)
    requires id in s.sessions
    ensures Usable(s, id, t) <==>
      exists states, steps :: IsPath(states, steps) && states[0] == s && ClockFrom(states, steps, id, t) && SomePasses(states, steps, id)
  {
    if Usable(s, id, t) {
      var states, steps := UsableIsUsed(s, id, t);
    } else {
      forall states, steps | IsPath(states, steps) && states[0] == s && ClockFrom(states, steps, id, t)
        ensures !SomePasses(states, steps, id)
      {
        UnusableForever(states, steps, id, t, |steps|);
      }
    }
  }

  /** One caller has passed its checks in time and is about to write; another has found the session
      expired. */
  lemma ExpiredWithWriter() returns (states: seq<Store>, steps: seq<Step>)
    ensures IsRun(states, steps) && |steps| == 5
    ensures steps[3] == Decide(0, 10 * 60_000 * NS_PER_MS) && !steps[0].Decide? && !steps[1].Decide? && !steps[2].Decide?
    ensures steps[4] == Decide(1, 31 * 60_000 * NS_PER_MS) && 1 in states[4].pending && states[4].pending[1].Validating?
    ensures states[4].pending[1].id == "s" && Verdict(states[4].pending[1], steps[4].now) == Some(Expired)
    ensures var row := NewRow("op", "ip", "ua", 0);
      states[5] == Store(map["s" := row], map[0 := Touching("s", row, 10 * 60_000 * NS_PER_MS)])
  {
    states, steps := [Store(map[], map[])], [];
    states, steps := ExtendPath(states, steps, Create("s", "op", "ip", "ua", 0));
    states, steps := ExtendPath(states, steps, ReadToValidate(0, "s", "", ""));
    states, steps := ExtendPath(states, steps, ReadToValidate(1, "s", "", ""));
    states, steps := ExtendPath(states, steps, Decide(0, 10 * 60_000 * NS_PER_MS));
    states, steps := ExtendPath(states, steps, Decide(1, 31 * 60_000 * NS_PER_MS));
  }

  /** With a call under way this happens even with a clock that never runs backwards: a validation that
      passed in time but writes late revives a session that another call has already found expired. */
  lemma OverlapRevives() returns (states: seq<Store>, steps: seq<Step>)
    ensures IsRun(states, steps) && |steps| == 8
    ensures forall i, j :: 0 <= i < j < |steps| && steps[i].Decide? && steps[j].Decide? ==> steps[i].now <= steps[j].now
    ensures steps[4] == Decide(1, 31 * 60_000 * NS_PER_MS) && 1 in states[4].pending && states[4].pending[1].Validating?
    ensures states[4].pending[1].id == "s" && Verdict(states[4].pending[1], steps[4].now) == Some(Expired)
    ensures Passes(states[7], steps[7], "s")
  {
    states, steps := ExpiredWithWriter();
    states, steps := ExtendPath(states, steps, WriteTouch(0));
    states, steps := ExtendPath(states, steps, ReadToValidate(2, "s", "", ""));
    states, steps := ExtendPath(states, steps, Decide(2, 32 * 60_000 * NS_PER_MS));
  }

  // ---- The service ----

  /** What a call returns: its times are those of the clock, in nanoseconds. */
  datatype Session = Session(operatorId: string, ip: string, userAgent: string, createdAt: int, lastSeen: int, expiresAt: int)

  /** The row holds what the session says, its times truncated to milliseconds. */
  predicate StoredAs(session: Session, row: Row) {
    && row.operatorId == session.operatorId && row.ip == session.ip && row.userAgent == session.userAgent && row.revokedAt == None
    && row.createdAt == Millis(session.createdAt) && row.lastSeen == Millis(session.lastSeen) && row.expiresAt == Millis(session.expiresAt)
  }

  class SessionService {
    var sessions: map<SessionId, Row>

    ghost predicate Valid()
      reads this
    {
      forall id :: id in sessions ==> ExpiryExact(sessions[id])
    }

    constructor ()
      ensures Valid() && sessions == map[]
    {
      sessions := map[];
    }

    /** `operatorEnabled` is whether the operator exists and is not disabled, `id` the random token,
        `audited` whether the audit entry is written: if it is not, the row is stored all the same. */
    method CreateSession(id: SessionId, operatorId: string, ip: string, userAgent: string, operatorEnabled: bool, audited: bool, now: int)
      returns (r: Result<Session>)
      requires Valid()
      modifies this
      ensures Valid()
      ensures var stored := TrimSpace(operatorId) != "" && TrimSpace(ip) != "" && TrimSpace(userAgent) != "" && operatorEnabled && id !in old(sessions);
        && sessions == (if stored then old(sessions)[id := NewRow(operatorId, ip, userAgent, now)] else old(sessions))
        && (r.Ok? <==> stored && audited)
      ensures r.Ok? ==> r.value == Session(operatorId, ip, userAgent, now, now, now + 1_800_000_000_000) && StoredAs(r.value, sessions[id])
    {
      if TrimSpace(operatorId) == "" {
        return Err("operator_id is required");
      }
      if TrimSpace(ip) == "" {
        return Err("ip is required");
      }
      if TrimSpace(userAgent) == "" {
        return Err("user_agent is required");
      }
      if !operatorEnabled {
        return Err("operator disabled");
      }
      if id in sessions {
        return Err("UNIQUE constraint failed: sessions.id");
      }
      sessions := sessions[id := Row(operatorId, ip, userAgent, now / NS_PER_MS, now / NS_PER_MS, (now + IDLE_TTL) / NS_PER_MS, None)];
      NewRowExact(operatorId, ip, userAgent, now);
      if !audited {
        return Err("audit");
      }
      r := Ok(Session(operatorId, ip, userAgent, now, now, now + IDLE_TTL));
    }

    /** `written` is whether the UPDATE succeeds. */
    method ValidateSession(id: SessionId, ip: string, userAgent: string, now: int, written: bool) returns (r: Result<Session>)
      requires Valid()
      modifies this
      ensures Valid() && sessions.Keys == old(sessions).Keys
      ensures r.Ok? <==> id in old(sessions) && Judge(old(sessions)[id], now, ip, userAgent) == None && written
      ensures r.Ok? ==> sessions == old(sessions)[id := Perform(old(sessions)[id], Validate(now, ip, userAgent))]
      ensures r.Ok? ==> StoredAs(r.value, sessions[id])
      ensures r.Ok? ==> r.value.lastSeen == now && r.value.createdAt == old(sessions)[id].createdAt * 1_000_000
      ensures r.Ok? ==> r.value.expiresAt == Min(now + 1_800_000_000_000, r.value.createdAt + 43_200_000_000_000)
      ensures r.Err? ==> sessions == old(sessions)
      ensures id in old(sessions) && ip != "" && ip != old(sessions)[id].ip && NoLetters(ip) ==> r.Err?
      ensures id in old(sessions) && Judge(old(sessions)[id], now, ip, userAgent).Some? ==>
        r == Err(RejectionText(Judge(old(sessions)[id], now, ip, userAgent).value))
    {
      if id !in sessions {
        return Err("sql: no rows in result set");
      }
      var row := sessions[id];
      if NoLetters(ip) {
        EqualFoldPlain(ip, row.ip);
      }
      hide EqualFold;
      if row.revokedAt.Some? {
        return Err("session revoked");
      }
      if now > row.expiresAt * NS_PER_MS {
        return Err("session expired");
      }
      if ip != "" && !EqualFold(ip, row.ip) {
        return Err("session ip mismatch");
      }
      if userAgent != "" && userAgent != row.userAgent {
        return Err("session user-agent mismatch");
      }
      var maxExpiry := row.createdAt * NS_PER_MS + HARD_TTL;
      var newExpiry := now + IDLE_TTL;
      if newExpiry > maxExpiry {
        newExpiry := maxExpiry;
      }
      if !written {
        return Err("sql: write failed");
      }
      sessions := sessions[id := row.(lastSeen := now / NS_PER_MS, expiresAt := newExpiry / NS_PER_MS)];
      TouchExact(row, now);
      r := Ok(Session(row.operatorId, row.ip, row.userAgent, row.createdAt * NS_PER_MS, now, newExpiry));
    }

    method RevokeSession(id: SessionId, now: int, written: bool) returns (r: Result<()>)
      requires Valid()
      modifies this
      ensures Valid()
      ensures r.Ok? <==> id in old(sessions) && written
      ensures r.Ok? ==> sessions == old(sessions)[id := Perform(old(sessions)[id], Revoke(now))]
      ensures r.Err? ==> sessions == old(sessions)
    {
      if id !in sessions {
        return Err("sql: no rows in result set");
      }
      if !written {
        return Err("sql: write failed");
      }
      if sessions[id].revokedAt == None {
        sessions := sessions[id := sessions[id].(revokedAt := Some(now / NS_PER_MS))];
      }
      r := Ok(());
    }
  }
}
