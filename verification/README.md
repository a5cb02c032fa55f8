# Verified model of the Aegis agent's stateful core

Aegis is a server control panel: a Go agent that owns a SQLite database and a TypeScript user
interface. This project models the parts of it that keep promises over time, and proves those
promises with Dafny. `dafny verify dfyconfig.toml` checks everything.

| file | what it models |
|---|---|
| `Jobs.dfy`, `JobsSafety.dfy`, `JobsRuns.dfy`, `JobsDrain.dfy`, `JobsRunner.dfy` | the durable job runner: the state machine of submitters, channel, workers, rows and crashes; its invariant; theorems on whole runs; draining; the `Runner` object |
| `Subscribers.dfy` | subscriber channels and broadcast |
| `Json.dfy`, `Canonical.dfy`, `AuditChain.dfy`, `AuditLog.dfy`, `Auditor.dfy` | the HMAC-chained audit log: JSON texts, canonical bytes, the chain and its verifier, concurrent appends, the `Auditor` object |
| `Sessions.dfy`, `Recovery.dfy`, `Passkeys.dfy` | sliding sessions, one-time recovery codes, passkey counters |
| `Base64.dfy` | the base64url helpers of the two WebAuthn modules |
| `Units.dfy`, `Tail.dfy` | the `systemctl show` parser and the log tail |
| `GoText.dfy`, `Bytes.dfy`, `Sequences.dfy`, `Options.dfy` | strings of the Go library, bytes, lists without repetition, optional values |

Concurrency is modelled as a state machine whose steps are single SQL statements, channel operations
and handler calls; a run is any sequence of enabled steps. The methods of the classes are
uninterrupted stretches of the program and are proved to take exactly those steps.

## What the proofs found

- `Get` scans the nullable `error` column into a plain string (jobs.go:178-183), which fails on NULL,
  and Submit leaves that column NULL. So as written no job ever runs: `StrictGetRunsNothing`. All other
  results about jobs let Get succeed or fail freely, and `DrainFinishes` says exactly which jobs finish.
- The errors of the row writes are ignored. A lost 'running' write lets a job run again after a crash.
  `HandlerAtMostOnce` bounds the invocations by the lost marks, `LostMarksRunAgain` reaches the bound for
  every number of them, and `InvokedAgainExactly` says in which states the handler of a job can still be
  invoked: exactly those in which its row is queued or a worker is about to call it.
- A job that a full channel refuses, or that a worker drops because Get fails, is not run before the next
  restart: `WaitsForRestart`.
- An audit entry whose payload cannot be marshalled, or marshals with object members out of order (a
  struct), does not verify after it is logged; nor does one whose SELECT of the last tag fails while the
  table has rows, because any error is taken for an empty table. `VerifyAfterRun` is the exact condition.
- Rows deleted at the end of the audit log go unnoticed: `DeletionLocalised`. Nothing else that is put
  together from the messages of a log does: `OnlyPrefixesPass`.
- The canonical bytes do not determine every entry. `DeterminedExactly` says which, among the entries
  that a log can hold (the constraints of the table met, both payloads texts of json.Marshal): those
  with no '|' in the address, the action and the resource, no actor kind as a field inside the actor,
  and no two JSON texts as fields in a row inside the payloads and the job id. Other bars are harmless.
  A row for which this fails can be replaced with its tag kept (`ReplaceableExactly`); where it holds the
  last tag fixes the content, whatever the other log holds (`LastTagFixesContent`). A payload string like
  "u|null|null|w" fails it in an entry with otherwise plain fields (`StringNests`).
- A validation that is slow to write can revive a session that another call has already rejected as
  expired, even with a clock that never runs backwards: `OverlapRevives`. `PassesAgainExactly` is the
  exact condition for this, on the row and the calls under way. For calls that do not overlap it cannot
  happen: `ExpiredForever`.
- The comment at audit.go:2 puts the previous tag in front of the canonical row. The code formats it,
  in hexadecimal, as the last field; the model follows the code.

## Hypotheses

The MAC and the key derivation are arbitrary functions. Where it matters it is assumed that no two of
the messages compared collide, that no tag is the genesis tag, and that an attempted recovery code
matches no stored hash of another code; each is a `requires` on the finite set of values involved.
Of remarshalling it is assumed, where the readings of a row matter, that it writes JSON and keeps what it
wrote; `RemarshalIsGoJson` shows that the concrete parser and printer do. Clock readings, random ids and salts, what a SELECT yields, and whether a write takes effect are
parameters. The UPDATEs of Set and Logf are assumed to take effect.

## Model

| member | source | states |
|---|---|---|
| JobsSafety.InvStep | aegis/aegis-agent/internal/jobs/jobs.go:79-173 | every step of any interleaving, a crash and the registration of handlers included, keeps the global invariant that ties the channel, the submitters, the workers and the rows together |
| JobsRuns.RunInv | aegis/aegis-agent/internal/jobs/jobs.go:79-173 | the invariant holds in every state of every run from an empty database |
| JobsRuns.ChannelAndWorkersDisjoint | aegis/aegis-agent/internal/jobs/jobs.go:85-88 | in every reachable state the channel holds at most 256 distinct ids, each of a queued row, none held by a worker, and no two workers hold the same id |
| JobsRuns.DispatchedOncePerEpoch | aegis/aegis-agent/internal/jobs/jobs.go:104-105 | two receives within one epoch yield two different jobs |
| JobsRuns.RunningBound | aegis/aegis-agent/internal/jobs/jobs.go:94-96 | after Start at most as many rows are running as there are workers, plus the rows stranded by a lost write |
| JobsRuns.RunningBoundWithoutLoss | aegis/aegis-agent/internal/jobs/jobs.go:79-97 | once Start has reconciled, and while no final write is lost, at most as many rows are running as there are workers |
| JobsRuns.TerminalForever | aegis/aegis-agent/internal/jobs/jobs.go:161-169 | a row that is succeeded, failed or cancelled keeps its status, error and times for the rest of every run, although no UPDATE checks the old status |
| JobsRuns.HistoryCounts | aegis/aegis-agent/internal/jobs/jobs.go:143-151 | the history counters of the model are the numbers of handler calls and of lost marks among the steps of the run |
| JobsRuns.HandlerAtMostOnce | aegis/aegis-agent/internal/jobs/jobs.go:132-165 | over a whole run with any number of crashes a handler is invoked at most once more than its mark was lost |
| JobsRuns.HandlerAtMostOnceWithoutLoss | aegis/aegis-agent/internal/jobs/jobs.go:143-151 | when every mark of this job takes effect, at most once; and never while its row is still queued |
| JobsRuns.LostMarksRunAgain | aegis/aegis-agent/internal/jobs/jobs.go:143 | the ignored error matters: for every n there is a run with n lost marks and crashes that invokes a handler n + 1 times, so the bound is reached |
| JobsRuns.InvokedAgainExactly | aegis/aegis-agent/internal/jobs/jobs.go:132-151 | from a state that satisfies the invariant some continuation, crashes allowed, invokes the handler of a submitted job exactly when its row is queued or a worker has marked it and not called it yet |
| JobsRuns.RefusedOrDroppedWaits | aegis/aegis-agent/internal/jobs/jobs.go:124-136 | a job that a full channel refuses at the end of Submit, or whose Get fails, is left queued outside the channel and held by no worker |
| JobsRuns.WaitsForRestart | aegis/aegis-agent/internal/jobs/jobs.go:79-108 | such a job stays so, and its handler is not invoked, along every continuation without a restart |
| JobsRuns.RowsShapedAlways | aegis/aegis-agent/internal/jobs/jobs.go:117-173 | in every reachable state: queued has no start, end or error; running has a start only; terminal has an end; progress is in 0..100 |
| JobsRuns.LogOnlyGrows | aegis/aegis-agent/internal/jobs/jobs.go:274-280 | rows are never removed, what Submit stored never changes, and a log only grows at its end |
| JobsRuns.SubmittedForever | aegis/aegis-agent/internal/jobs/jobs.go:110-130 | a Submit of a new id stores a queued row with exactly its kind, parameters, author and time, no progress, log, error or end; those four stand in every later state |
| JobsRuns.RowTellsHistory | aegis/aegis-agent/internal/jobs/jobs.go:79-172 | in every run the start of a row is the clock of the last mark that took effect, and its status, error and end are those of the last write, refusal or reconciling restart that ended the job |
| JobsRuns.HandlersOfEpoch | aegis/aegis-agent/internal/jobs/jobs.go:64-79 | a kind has a handler exactly when it was registered since the last crash |
| JobsRuns.RestartReconciles | aegis/aegis-agent/internal/jobs/jobs.go:79-93 | after Start no row is running, every row that was running has failed with 'agent restart' and is otherwise as it was, all others are untouched, and the channel holds exactly the queued rows when they fit, else the first 256 of them |
| JobsRuns.StrictGetRunsNothing | aegis/aegis-agent/internal/jobs/jobs.go:175-185 | as Get is written it fails on a row without an error, so in no run is any handler invoked or any job moved out of 'queued' |
| Jobs.Get | aegis/aegis-agent/internal/jobs/jobs.go:175-203 | Get yields the row exactly when it is there and its error column is not NULL |
| JobsSafety.OfferAllPrefix | aegis/aegis-agent/internal/jobs/jobs.go:84-91 | the non-blocking sends fill the channel with a prefix of the ids, up to its capacity |
| JobsDrain.WorkerStepDescends | aegis/aegis-agent/internal/jobs/jobs.go:99-173 | every step of a worker lowers the termination measure |
| JobsDrain.DrainIsFinite | aegis/aegis-agent/internal/jobs/jobs.go:99-173 | with any progress and log writes of handlers in between, the number of worker steps is bounded by the measure of the state a drain starts in |
| JobsDrain.MovesUnlessSettled | aegis/aegis-agent/internal/jobs/jobs.go:99-108 | some worker can move exactly when the channel is not empty or some worker is busy |
| JobsDrain.DroppedIffGetFailed | aegis/aegis-agent/internal/jobs/jobs.go:133-136 | in a drain an id is dropped exactly when its Get fails |
| JobsDrain.DrainFinishes | aegis/aegis-agent/internal/jobs/jobs.go:99-173 | a maximal drain ends with the channel empty and all workers idle, and each job that was in flight is terminal exactly when its Get did not fail, else still queued |
| JobsRunner.Runner.constructor | aegis/aegis-agent/internal/jobs/jobs.go:64-75 | New: at least one worker, an empty channel and registry |
| JobsRunner.Runner.Start | aegis/aegis-agent/internal/jobs/jobs.go:79-97 | Start with its loop takes exactly the Start step |
| JobsRunner.Runner.Enqueue | aegis/aegis-agent/internal/jobs/jobs.go:84-91 | the loop over the queued ids |
| JobsRunner.Runner.Submit | aegis/aegis-agent/internal/jobs/jobs.go:110-130 | an uninterrupted Submit fails and changes nothing when the parameters do not marshal or the INSERT fails, a duplicate id included; else it adds one row, of which every field is given, and offers its id |
| JobsRunner.BegunBySteps | aegis/aegis-agent/internal/jobs/jobs.go:142-151 | the stretch up to the handler is two steps of the state machine, for a mark that is written or lost |
| JobsRunner.ConcludedBySteps | aegis/aegis-agent/internal/jobs/jobs.go:151-172 | so is the stretch after it, for every outcome and a last write that is written or lost |
| JobsRunner.Runner.Execute | aegis/aegis-agent/internal/jobs/jobs.go:142-172 | the row after the stretch from the mark to the last write, field by field, for every outcome and every combination of lost writes |
| JobsRunner.Runner.Run | aegis/aegis-agent/internal/jobs/jobs.go:132-172 | an uninterrupted run changes only the row of the job it holds, and which of its fields to what, for each failure of Get, missing handler, outcome and lost write |
| JobsRunner.Runner.SetProgress | aegis/aegis-agent/internal/jobs/jobs.go:261-268 | only the progress of this row changes: to the value given, to 0 below and to 100 above the range |
| JobsRunner.Runner.Logf | aegis/aegis-agent/internal/jobs/jobs.go:274-276 | only the log of this row changes: the line is appended to it |
| Subscribers.Hub.Subscribe | aegis/aegis-agent/internal/jobs/jobs.go:224-228 | a fresh open channel is appended to the list of its key |
| Subscribers.Hub.Unsubscribe | aegis/aegis-agent/internal/jobs/jobs.go:229-240 | the first call removes exactly its own channel, keeps the others in order and closes it once; later calls do nothing |
| Subscribers.Hub.Broadcast | aegis/aegis-agent/internal/jobs/jobs.go:243-254 | every open channel with a matching key is offered the event once, without blocking, and no other channel is touched |
| Subscribers.TargetsExact | aegis/aegis-agent/internal/jobs/jobs.go:245-246 | the copied list holds each open channel of the id or of '*' exactly once, and no closed one |
| Subscribers.DeliveredStep | aegis/aegis-agent/internal/jobs/jobs.go:248-253 | what a subscriber received and holds stays an order-preserving subsequence of the broadcasts for its key, with at most 16 buffered |
| Subscribers.SubsequenceIs | aegis/aegis-agent/internal/jobs/jobs.go:248-253 | being such a subsequence means to stand in the broadcasts at ascending positions |
| Subscribers.CompleteIffKeepsUp | aegis/aegis-agent/internal/jobs/jobs.go:248-253 | over any sequence of broadcasts and receives a subscriber sees every event for its key, in order, exactly when its buffer has room at each of them |
| Json.ParseMarshal | aegis/aegis-agent/internal/audit/audit.go:133-138 | parsing undoes marshalling, whatever delimited text follows |
| Json.MarshalSelfDelimiting | aegis/aegis-agent/internal/audit/audit.go:91-96 | marshalled texts delimit themselves, even when they contain a bar |
| Json.RemarshalStable | aegis/aegis-agent/internal/audit/audit.go:133-139 | a marshalled text survives Unmarshal and Marshal exactly when the members of its objects were in ascending order |
| Json.NormalizeMeans | aegis/aegis-agent/internal/audit/audit.go:133-139 | what Unmarshal into any makes of a value: of each key of an object the last value stays, the members are sorted, the elements of an array stay in place |
| Json.StaysExactly | aegis/aegis-agent/internal/audit/audit.go:91-92 | the characters that json.Marshal leaves as they are inside a string |
| Json.EscapeForm | aegis/aegis-agent/internal/audit/audit.go:91-92 | the others become a backslash and one character, or a Unicode escape of four digits |
| Json.TrailingRefused | aegis/aegis-agent/internal/audit/audit.go:133-138 | text after a value makes Unmarshal fail |
| Json.LeadingZeroRefused | aegis/aegis-agent/internal/audit/audit.go:133-138 | so does a number with a leading zero |
| Json.ControlRefused | aegis/aegis-agent/internal/audit/audit.go:133-138 | and a control character inside a string |
| Canonical.CanonicalText | aegis/aegis-agent/internal/audit/audit.go:90-97 | the format, field by field, with a bar between each two |
| Canonical.HexDigits | aegis/aegis-agent/internal/audit/audit.go:95 | the tag is written in two lower-case digits for each byte, the high one first |
| Canonical.GenesisIsZeros | aegis/aegis-agent/internal/audit/audit.go:66-70 | the first previous tag is 32 zero bytes |
| Canonical.CanonicalFixesPrev | aegis/aegis-agent/internal/audit/audit.go:93-95 | whatever the fields hold, the canonical bytes determine the previous tag |
| Canonical.NoBarsDetermined | aegis/aegis-agent/internal/audit/audit.go:90-97 | an entry that formats without a bar has its bytes to itself: equal bytes mean the same entry and previous tag, whatever the other entry holds |
| Canonical.OneReadingDetermined | aegis/aegis-agent/internal/audit/audit.go:90-97 | an entry of a log whose bytes have one reading shares them with no other entry that a log can hold |
| Canonical.DeterminedExactly | aegis/aegis-agent/internal/audit/audit.go:90-97 | among these entries the bytes determine exactly those: no bar in address, action and resource, no actor kind among the fields of the actor, no two JSON texts in a row among those of the payloads and the job id |
| Canonical.BarlessReadsOneWay | aegis/aegis-agent/internal/audit/audit.go:90-97 | an entry that formats without a bar is one of them |
| Canonical.CanonicalizeInjective | aegis/aegis-agent/internal/audit/audit.go:90-97 | between two entries with no bar in the five free fields, equal canonical bytes mean equal fields, payloads and previous tag, even when the payloads hold bars |
| Canonical.BarsCollide | aegis/aegis-agent/internal/audit/audit.go:93-95 | every entry with a bar in its address, action or resource has a different entry, which the table admits as well, with the same bytes |
| Canonical.NestedCollides | aegis/aegis-agent/internal/audit/audit.go:93-95 | two JSON texts in a row inside the payloads and the job id are the payloads of a different entry with the same bytes, however plain the free fields are |
| Canonical.KindCollides | aegis/aegis-agent/internal/audit/audit.go:93-95 | an actor kind among the fields of the actor is the kind of a different admitted entry with the same bytes |
| Canonical.StringNests | aegis/aegis-agent/internal/audit/audit.go:91-96 | an ordinary JSON string can hold such texts |
| AuditChain.MessageOf | aegis/aegis-agent/internal/audit/audit.go:126-140 | the bytes that the verifier rebuilds are those of the row's own fields, NULL read as null and other payloads remarshalled |
| AuditChain.FirstBad | aegis/aegis-agent/internal/audit/audit.go:115-146 | the least row that fails a check |
| AuditChain.VerdictZero | aegis/aegis-agent/internal/audit/audit.go:106-148 | Verify returns 0 exactly for an intact chain |
| AuditChain.LastTagFixesHistory | aegis/aegis-agent/internal/audit/audit.go:65-75 | two intact logs with the same last tag have the same length and the same canonical bytes row by row, by descent to genesis |
| AuditChain.LastTagFixesContent | aegis/aegis-agent/internal/audit/audit.go:65-97 | the last tag fixes every field of each row whose bytes have one reading, whatever admitted rows the other log holds |
| AuditChain.LastTagFixesBarless | aegis/aegis-agent/internal/audit/audit.go:65-97 | for a row without any bar that holds with any remarshalling and any other log |
| AuditChain.PlainLogsAgree | aegis/aegis-agent/internal/audit/audit.go:65-97 | two logs with plain free fields and JSON payloads that end in the same tag hold the same fields and payloads |
| AuditChain.BarsReplaceable | aegis/aegis-agent/internal/audit/audit.go:139-144 | a row with a bar in its address, action or resource can be replaced by another admitted one, all tags kept, and the log still verifies |
| AuditChain.ReplaceableExactly | aegis/aegis-agent/internal/audit/audit.go:130-144 | a row of an intact log can be replaced by an admitted row that says something else, its tags kept and the log still intact, exactly when its bytes have another reading, or else the MAC collides |
| AuditChain.OnlyPrefixesPass | aegis/aegis-agent/internal/audit/audit.go:107-148 | rows put together from the messages of an intact log, inserted, reordered, replayed or left out, verify exactly when they tell a beginning of its history |
| AuditChain.TagsDistinct | aegis/aegis-agent/internal/audit/audit.go:114-147 | all tags of an intact chain differ from each other and from genesis |
| AuditChain.TamperingLocalised | aegis/aegis-agent/internal/audit/audit.go:139-144 | changing the canonical content of row k, with its tag kept, makes Verify return the id of row k |
| AuditChain.DeletionLocalised | aegis/aegis-agent/internal/audit/audit.go:126-128 | deleting a block of rows makes Verify return the id of the row after it; deleting rows at the end goes unnoticed |
| AuditLog.SameMessageIffStable | aegis/aegis-agent/internal/audit/audit.go:50-97 | the verifier rebuilds the logged bytes exactly when both payloads marshal and have their object members in ascending order |
| AuditLog.RemarshalIsGoJson | aegis/aegis-agent/internal/audit/audit.go:133-138 | the hypotheses on remarshalling are met by the concrete parser and printer, which always write a text that is stable |
| AuditLog.InvStep | aegis/aegis-agent/internal/audit/audit.go:59-87 | every step of concurrent Log calls, refused and rolled back inserts included, keeps each row on top of the row before it |
| AuditLog.RunInv | aegis/aegis-agent/internal/audit/audit.go:59-87 | in every reachable state the chain has not forked |
| AuditLog.UninterruptedAppends | aegis/aegis-agent/internal/audit/audit.go:40-87 | a call that nothing interrupts takes its five steps and appends the row of its entry on the last tag |
| AuditLog.CallsWait | aegis/aegis-agent/internal/audit/audit.go:59-63 | a call can start at any time, and gets on exactly when no other has the connection |
| AuditLog.AbortRollsBack | aegis/aegis-agent/internal/audit/audit.go:59-63 | a call can fail at any point and then leaves the table and the connection as if it had not been |
| AuditLog.OnlyCalledEntries | aegis/aegis-agent/internal/audit/audit.go:40-49 | in every run each committed entry is that of an earlier call, with the defaults filled in |
| AuditLog.RowOkIffSound | aegis/aegis-agent/internal/audit/audit.go:65-75 | a row verifies exactly when its payloads were stable and its SELECT, if the table was not empty, succeeded |
| AuditLog.VerifyAfterRun | aegis/aegis-agent/internal/audit/audit.go:40-148 | after any interleaving Verify returns 0 exactly when that holds of every committed entry, and otherwise the id of the first one for which it fails |
| AuditorObject.RowSays | aegis/aegis-agent/internal/audit/audit.go:40-97 | the row that is made for an entry, field by field in terms of that entry: the defaults of time, actor kind and result, NULL payloads, and the bytes that the tag signs |
| AuditorObject.Auditor.Log | aegis/aegis-agent/internal/audit/audit.go:40-88 | an uninterrupted Log appends exactly that row on the last tag, or changes nothing; it succeeds exactly for the results and actor kinds that the table admits, unset ones included (migrate.go lines 58 and 65) |
| AuditorObject.Auditor.Verify | aegis/aegis-agent/internal/audit/audit.go:107-148 | the loop returns the id of the least failing row, or 0 |
| Sessions.EqualFoldExactly | aegis/aegis-agent/internal/auth/auth.go:342 | two texts are equal under folding exactly when they differ, if at all, in the case of letters |
| Sessions.EqualFoldEquivalence | aegis/aegis-agent/internal/auth/auth.go:342 | that is an equivalence |
| Sessions.EqualFoldPlain | aegis/aegis-agent/internal/auth/auth.go:342 | an address without letters is equal to itself only |
| Sessions.TouchExact | aegis/aegis-agent/internal/auth/auth.go:348-353 | the updated row has its expiry exact in milliseconds despite truncation |
| Sessions.ExpiryAlwaysExact | aegis/aegis-agent/internal/auth/auth.go:330-381 | under any interleaving every row has expires_at = min(last_seen + 30 min, created_at + 12 h) exactly |
| Sessions.RevokedForever | aegis/aegis-agent/internal/auth/auth.go:368 | revoked_at, once set, is never cleared or moved, not even by an update decided earlier |
| Sessions.ReadAfterRevokeFails | aegis/aegis-agent/internal/auth/auth.go:335-337 | a validation that reads after the revocation is rejected and writes nothing |
| Sessions.WindowAlways | aegis/aegis-agent/internal/auth/auth.go:339-353 | in any interleaving a validation passes only within 12 h of the creation and within 30 min of an earlier one that passed, or of the creation |
| Sessions.UninterruptedIsPerform | aegis/aegis-agent/internal/auth/auth.go:330-360 | the three steps of a validation, with nothing between them, do what the sequential model says |
| Sessions.UninterruptedRevocation | aegis/aegis-agent/internal/auth/auth.go:362-371 | so do the two steps of a revocation, whatever other calls are under way |
| Sessions.CreationAdds | aegis/aegis-agent/internal/auth/auth.go:294-302 | a session under a new id is added with its fields, its times truncated and its end 30 min later |
| Sessions.RevocationWrites | aegis/aegis-agent/internal/auth/auth.go:362-371 | the UPDATE of a revocation sets the time where there is none and leaves any other row |
| Sessions.FailureChangesNothing | aegis/aegis-agent/internal/auth/auth.go:330-371 | a call can fail before any of its statements and then leaves the table as it is |
| Sessions.RowHistory | aegis/aegis-agent/internal/auth/auth.go:294-359 | the row before any call is a function of the accepted calls and the first revocation |
| Sessions.AcceptedExactly | aegis/aegis-agent/internal/auth/auth.go:335-347 | exactly when a call is accepted, from the history of calls alone |
| Sessions.SlidingWindow | aegis/aegis-agent/internal/auth/auth.go:348-353 | every accepted call is within 12 h of the creation and within 30 min of the previous accepted call |
| Sessions.ExpiredForever | aegis/aegis-agent/internal/auth/auth.go:339-341 | with a clock that does not run backwards, after one rejection as expired no later call is accepted |
| Sessions.PassesAgainExactly | aegis/aegis-agent/internal/auth/auth.go:331-353 | from any state some continuation, with all clocks at t or later, lets a validation pass exactly when the row is valid at t, or a call under way holds a row that is, or one that has passed is still to write an expiry not before t over a row not revoked |
| Sessions.OverlapRevives | aegis/aegis-agent/internal/auth/auth.go:331-353 | that can revive a session: a concrete run, its clock never running backwards, in which a late update follows another call's rejection as expired |
| Sessions.SessionService.CreateSession | aegis/aegis-agent/internal/auth/auth.go:272-326 | the checks in order, the row created, and the session returned; when the audit entry fails the row stays although an error is returned |
| Sessions.SessionService.ValidateSession | aegis/aegis-agent/internal/auth/auth.go:330-360 | accepted exactly when the checks pass and the UPDATE succeeds; then the row slides and the times returned are those stored before truncation, within 30 min and 12 h; else nothing changes and the error names the first check that failed; another address without letters is always refused |
| Sessions.SessionService.RevokeSession | aegis/aegis-agent/internal/auth/auth.go:362-371 | the first revocation sets the time, later ones change nothing; errors change nothing |
| Recovery.EncodeRecoveryCodes | aegis/aegis-agent/internal/auth/auth.go:447-468 | the loop keeps one hash for each trimmed non-blank code, in order, and fails when none is left or the random source fails on one |
| Recovery.RecoveryCodes.ConsumeCode | aegis/aegis-agent/internal/auth/auth.go:657-697 | the loop removes the first matching hash, refuses blank, unknown and last codes with their errors, and changes nothing when the list cannot be read or written |
| Recovery.ConsumeRefines | aegis/aegis-agent/internal/auth/auth.go:672-690 | an attempt on the hashes does what removal of the code from the list of codes does |
| Recovery.CodesConserved | aegis/aegis-agent/internal/auth/auth.go:657-697 | over any run the enrolled codes are, as a multiset, the remaining and the consumed ones; the list never becomes empty, no code is consumed more often than enrolled, and at least one never is |
| Recovery.AttemptSucceedsExactly | aegis/aegis-agent/internal/auth/auth.go:683-690 | an attempt succeeds exactly when its code is not used up and another code would remain |
| Passkeys.StoredIsGreatest | aegis/aegis-agent/internal/auth/auth.go:534 | the stored counter is always the maximum of the enrolled one and every count that passed |
| Passkeys.PassesExactly | aegis/aegis-agent/internal/auth/auth.go:531-533 | a positive count passes exactly when it is at least the enrolled value and every count that passed before |
| Passkeys.ReplayPasses | aegis/aegis-agent/internal/auth/auth.go:531 | the check is not strict: the same positive count passes again |
| Passkeys.Credential.CompleteLogin | aegis/aegis-agent/internal/auth/auth.go:531-537 | the check and the update; the counter never goes down, and stays when the UPDATE fails |
| Base64.DecodeEncode | aegis/aegis-ui/lib/auth/webauthn-browser.ts:132-145 | base64urlToBytes undoes bytesToBase64url for every byte sequence |
| Base64.EncodeDecode | aegis/aegis-ui/lib/auth/webauthn-browser.ts:132-136 | a text over the url alphabet decodes exactly when its length is not 1 modulo 4, and encoding gives it back exactly when its unused bits are zero |
| Base64.AtobExactly | aegis/aegis-ui/lib/auth/webauthn-browser.ts:132-136 | for every text: it decodes exactly when, without its white space, it spells sextets with exact padding or none, and to their bytes |
| Base64.ReplacedEach | aegis/aegis-ui/lib/auth/webauthn-browser.ts:133-144 | the replacements change the two characters wherever they stand and no other |
| Base64.ServerRepads | aegis/aegis-ui/lib/auth/webauthn-server.ts:176-191 | re-padding on the server yields exactly the section 4 encoding, which decodes to the same bytes |
| Base64.AlphabetsDiffer | aegis/aegis-ui/lib/auth/webauthn-browser.ts:144 | for all bytes the browser's text is the server's without padding, with '-' and '_' exactly where that has '+' and '/' |
| Base64.BytesToBase64url | aegis/aegis-ui/lib/auth/webauthn-browser.ts:138-145 | the loop and the replacements compute the section 5 encoding, which decodes to the input |
| Base64.BytesToBase64 | aegis/aegis-ui/lib/auth/webauthn-server.ts:180-186 | the loop computes the section 4 encoding, which decodes to the input |
| Units.List | aegis/aegis-agent/internal/services/services.go:41-77 | for every text the result is a sorted permutation of the units the loop collects, the one sorted order when the names differ; no unit lacks a name |
| Units.SortedUnique | aegis/aegis-agent/internal/services/services.go:74-76 | with distinct names there is only one sorted order, so the unstable sort is determined |
| GoText.LessIsLexicographic | aegis/aegis-agent/internal/services/services.go:74-76 | the order of names is the lexicographic one |
| Units.SplitMeans | aegis/aegis-agent/internal/services/services.go:43 | splitting into lines loses nothing |
| Units.CutMeans | aegis/aegis-agent/internal/services/services.go:52 | a line is cut at its first '=', if it has one |
| Units.OtherLinesIgnored | aegis/aegis-agent/internal/services/services.go:52-69 | a line without '=' or with another key changes nothing |
| Units.KeyLineAssigns | aegis/aegis-agent/internal/services/services.go:52-69 | a printed line is read as the assignment it was printed for, even when the value contains '=' |
| Units.ParseUndoesPrint | aegis/aegis-agent/internal/services/services.go:41-77 | units with names and one-line fields, printed in any order of keys with blank lines between the blocks, are read back exactly, sorted by name |
| Tail.ClampLimit | aegis/aegis-agent/internal/logs/logs.go:42-44 | the limit passed on is always in 1..200 |
| Tail.TailLines | aegis/aegis-agent/internal/logs/logs.go:166-185 | the in-place shifting window is the last min(limit, n) of the n trimmed non-blank lines, with all indexing in range: the lines returned are the cores of lines at ascending positions, and every other line is blank or older with the window full |
| Tail.Push | aegis/aegis-agent/internal/logs/logs.go:173-178 | one line is appended, or the full window is shifted and its last slot overwritten |
| GoText.TrimSpaceExactly | aegis/aegis-agent/internal/logs/logs.go:169 | trimming takes the white space off both ends and nothing else |
| GoText.TrimSpaceAround | aegis/aegis-agent/internal/logs/logs.go:169-172 | white space around a trimmed text goes, and a text is trimmed to nothing exactly when it is all white space |
| Tail.KeptLinesExactly | aegis/aegis-agent/internal/logs/logs.go:169-172 | the lines kept are the cores of the lines that are not all white space, in order |
| Tail.TailIsNewest | aegis/aegis-agent/internal/logs/logs.go:173-178 | counted from the end, line i of the tail is line i of all the lines kept |
| Tail.KeptLinesHaveNoBlanks | aegis/aegis-agent/internal/logs/logs.go:169-172 | no line of a tail is blank or has white space at an end |
| Tail.SnapshotTail | aegis/aegis-agent/internal/logs/logs.go:41-53 | with the clamp the window is at most 200 lines whatever limit is asked for |

## Left out

- Broadcasts that overlap an unsubscribe: the registry is copied under the lock and sent to after it is released (jobs.go:243-253); no claim is made about that window.
- The broadcasts inside the job steps: the runner and its subscribers are modelled separately.
- A worker that stops because its context is cancelled; a crash stops all workers at any step.
- `jobs.List`, which calls Get while its own cursor holds the only connection.
- Json.Parse: of texts that json.Marshal does not write little is stated; white space, other forms of numbers and strings that are not valid UTF-8 are not part of the parser. The audit chain itself takes any remarshalling function.
- JSON numbers that are not integers below 2^53 in magnitude.
- Audit rows with NULL in a text column other than the payloads, on which Verify returns an error; `audit.List`.
- Overlapping recovery logins, passkey logins and bootstraps, which check first and write later.
- The audit entries that sessions, logins and revocations write, and the operator lookups around them.
- Sessions.SessionService.ValidateSession: EqualFold is modelled on ASCII text, which addresses are.
- Recovery.RecoveryCodes.ConsumeCode: leaves out the errors of base64 decoding in a stored hash, which enrolment never writes.
- The scanner under `tailLines`: the lines it yields and whether it fails are parameters.
- `atob` and `btoa` are modelled after their standards; the credential API is not part of this model.
- HTTP routing, settings, system overview, log entry parsing, service actions, TOTP and sealed secrets: plumbing, or wrappers around libraries.
