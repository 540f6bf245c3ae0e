# RATO daemon: verified model of its deterministic engines

RATO is a desktop daemon of small deterministic engines around a single-writer store. This project
models those engines in Dafny and proves what they keep over whole runs. The store runs one command
at a time, so each command is one atomic step; time is an integer the caller passes in.

| file | component |
|---|---|
| `Sessionizer.dfy`, `Ingest.dfy`, `SessionRuns.dfy` | activity grouped into work sessions by silence, its mirror in the session table, and whole runs against a batch reading |
| `Governor.dfy`, `Critic.dfy`, `CriticLives.dfy` | three token buckets behind an hourly cap; the critic's admission and its 24-hour evidence dedupe; both across restarts |
| `Approvals.dfy` | every interleaving of RPC deciders, voice decisions, expiry sweeps and merges |
| `Calendar.dfy` | closed-form civil dates against a day-by-day calendar (section 3.2.1 of ISO 8601:2004) |
| `Jsonc.dfy`, `JsoncTokens.dfy`, `Shell.dfy`, `Clipboard.dfy` | the comment stripper and what it keeps apart (sections 2 and 7 of RFC 8259), shell quoting (sections 2.2.1, 2.2.2 and 2.3 of the Shell Command Language, IEEE Std 1003.1-2017), UTF-8 truncation (section 3 of RFC 3629) |
| `Commands.dfy`, `Detect.dfy` | command normalisation and the two failure detectors |
| `Fusion.dfy` | reciprocal rank fusion |
| `Decay.dfy`, `Retention.dfy` | nightly confidence decay and the citation-aware prune |
| `McpCommands.dfy`, `Validation.dfy`, `Dotfile.dfy`, `DotfileCrashes.dfy` | the command check and the validation an edit must pass; apply and revert of edits, their audit chain, and what crashes leave of it |
| `Order.dfy`, `Basics.dfy` | sorting under an order, and small shared types |

Where the source updates an object or a table in place, the model is a class whose methods are proved
against specification functions (`OnActivity`, `Admit`, `Step`, `Decide`, `Nightly`, ...); the theorems
about runs are lemmas about those functions. Hash maps are visited in an arbitrary order, and an
unordered `LIMIT` picks arbitrary rows.

## Where a promise meets its limit

The code is kept as it is in each case. The lemmas named say when the promise holds and show where it
does not.

- Dates before 1970: seconds are divided toward zero, so the date is that of the UTC day exactly from the
  epoch on and at midnights before it (`Calendar.DateIsUtcDayIff`, `Calendar.OneSecondBeforeTheEpoch`).
- Dedupe keys: for ids without `|`, equal keys mean equal evidence, save that no evidence and one empty
  id share a key (`Critic.KeyIsMultiset`); ids with `|` can collide (`Critic.KeyCollision`).
- Approving does not look at the deadline: a decision lands exactly when no other did and no sweep came
  first (`Approvals.DecisionLandsIff`), so an approval can be granted after its deadline
  (`Approvals.LateGrant`); the merge check stops what follows (`Approvals.DeadlineStopsMerges`).
- A block comment is dropped without leaving a blank, so tokens are kept exactly where no block comments
  alone separate two of them (`JsoncTokens.TokensKeptIff`, `JsoncTokens.CommentIsNoSeparator`).
- The caps on pushbacks are caps per daemon process: a restart begins with full buckets and an empty
  window over the same stored rows. Within one process an hour holds at most 3 mentor pushbacks by start
  and 4 by row time, and both are attained (`Critic.ShownPerHour`, `Critic.StoredPerHour`,
  `CriticLives.MentorMeetsItsCaps`); across restarts the bound is that cap for each process that ticked in
  the hour (`CriticLives.ShownAcrossRestarts`), and no number that ignores restarts will do
  (`CriticLives.NoCapAcrossRestarts`).
- Fusion respects dominance exactly for `k >= -1`; the daemon uses 60 (`Fusion.DominanceIff`).
- A crash between the write of a file and its audit row breaks the path's chain exactly when it changed
  the file (`DotfileCrashes.TornBreaksIff`), by one gap at most (`DotfileCrashes.GapsAreCrashes`). One
  between a revert's row and its mark lets the edit be reverted once more
  (`DotfileCrashes.RevertsAreCounted`).
- Reverting never removes a file: a file that did not exist before an edit comes back empty
  (`Dotfile.ApplyThenRevert`).
- Ticks: without them a project's last, lapsed session has no end yet; nothing else differs
  (`SessionRuns.TicksAreUnobservable`).

The initializer `if z >= 0 { z } else { z - 146096 } / 146097` in the date formatter divides the value of
the whole conditional, and the model does the same.

## Model

| member | source | states |
|---|---|---|
| Sessionizer.Sessionizer.Preload | crates/rat-daemon/src/sessionizer.rs:46-57 | Listed sessions enter the open map in order, so a later session of a project replaces an earlier one. |
| Ingest.LastIsAdopted | crates/rat-daemon/src/sessionizer.rs:46-57 | Of any list the session adopted for a project is the last one listed. |
| Ingest.OthersAreKept | crates/rat-daemon/src/sessionizer.rs:46-57 | A project that is not listed keeps what it had. |
| Sessionizer.Sessionizer.Activity | crates/rat-daemon/src/sessionizer.rs:59-105 | A silence within the gap extends the project's open session; a longer one closes it at its last activity and opens a new one; other projects stay as they are. |
| Sessionizer.Sessionizer.Tick | crates/rat-daemon/src/sessionizer.rs:108-126 | Exactly the sessions silent for longer than the gap leave the map, one Close each at their last activity, in some order of the hash map. |
| Ingest.SessionTable.SessionOpen | crates/rat-store/src/store.rs:1717-1734 | One new row, all others unchanged; refused without any change when the id is taken. |
| Ingest.SessionTable.SessionTouch | crates/rat-store/src/store.rs:1736-1747 | Only the named row changes, only in last activity and commands; an unknown id changes nothing. |
| Ingest.SessionTable.SessionClose | crates/rat-store/src/store.rs:1749-1755 | Only the named row changes, only in its end; an unknown id changes nothing. |
| Ingest.SessionTable.OpenSessions | crates/rat-store/src/store.rs:1758-1793 | Lists each row with no end exactly once and no other row. |
| Ingest.Ingest.constructor | crates/rat-daemon/src/main.rs:92-99 | Starting over any well-formed table, in particular one left by a crash, the adopted memory mirrors the open rows. |
| Ingest.Ingest.ApplyUpdates | crates/rat-daemon/src/ingest.rs:88-105 | The updates reach the table one by one in the order emitted, up to the first one the table refuses. |
| Ingest.Ingest.IngestEvent | crates/rat-daemon/src/ingest.rs:64-73 | Only activity kinds with a project touch sessions; with a fresh id the table refuses nothing, and memory and table mirror each other again. |
| Ingest.Ingest.TickAt | crates/rat-daemon/src/ingest.rs:79-86 | A timer tick closes precisely the rows silent past the gap, whatever order the hash map yields, and memory and table mirror each other again. |
| Ingest.ActivityKeepsMirror | crates/rat-daemon/src/ingest.rs:64-73 | Rows with no end are exactly the open sessions (id, last activity, commands), at most one per project, closed rows end at their last activity: an activity keeps all of it. |
| Ingest.TickKeepsMirror | crates/rat-daemon/src/ingest.rs:79-86 | A tick keeps the same mirror invariant. |
| Ingest.TickIsCloseStale | crates/rat-daemon/src/sessionizer.rs:108-126 | Applying a tick's Close updates has one effect for every iteration order. |
| Ingest.RestartRebuilds | crates/rat-daemon/src/main.rs:92-99 | Re-adopting the open rows, listed in any order, rebuilds exactly the in-memory map, so the future after a restart is the same. |
| Ingest.CrashDuringActivity | crates/rat-daemon/src/ingest.rs:88-105 | A crash after any prefix of an activity's updates, between Close and Open included, leaves a table a restart can adopt. |
| Ingest.CrashDuringTick | crates/rat-daemon/src/ingest.rs:79-105 | The same for a crash after any prefix of a tick's updates. |
| SessionRuns.BreaksExact | crates/rat-daemon/src/sessionizer.rs:68-80 | The batch reading cuts a project's activities exactly at the first one and after each silence longer than the gap. |
| SessionRuns.SegmentIsMaximal | crates/rat-daemon/src/sessionizer.rs:59-105 | Each batch session is a maximal run of activities whose consecutive gaps are at most the limit. |
| SessionRuns.AlwaysMirrors | crates/rat-daemon/src/ingest.rs:58-105 | After every event of every run of activities, ticks and restarts, memory and table mirror each other. |
| SessionRuns.SessionsAreMaximalRuns | crates/rat-daemon/src/sessionizer.rs:59-126 | After every orderly run the table holds exactly one row per batch session, with its start, last activity, command count and end, and no other row. |
| SessionRuns.RunsHaveRows | crates/rat-daemon/src/sessionizer.rs:59-126 | Every maximal run of a project's activities has its row: named by its first activity, started there, last active at its last, counting the indices of the run that are commands, ended if and only if another run follows or a tick saw it lapse. |
| SessionRuns.RowsAreRuns | crates/rat-daemon/src/sessionizer.rs:59-126 | And every row of the table is the row of such a run. |
| SessionRuns.TicksAreUnobservable | crates/rat-daemon/src/sessionizer.rs:108-126 | Deleting all ticks and restarts leaves the same rows; only the end of a project's last, lapsed session can differ. |
| SessionRuns.CommandsConserved | crates/rat-daemon/src/sessionizer.rs:59-105 | The commands of the sessions add up to the number of indices whose activity is a command. |
| SessionRuns.CommandsAreCounted | crates/rat-daemon/src/sessionizer.rs:69-92 | The commands counted over any activities are the number of indices whose activity is a command: others count nothing. |
| SessionRuns.CrashesKeepMirror | crates/rat-daemon/src/ingest.rs:58-105 | From any well-formed table, through any events, restarts and crashes in the middle of an activity's or a tick's updates, memory and table mirror each other. |
| SessionRuns.EndedSessionsStay | crates/rat-daemon/src/ingest.rs:58-105 | In all those runs the row of an ended session is never written again. |
| Governor.BucketState.RefillAt | crates/rat-brain/src/governor.rs:29-42 | Accrues what the elapsed time is worth up to the capacity; nothing on the first call or when the clock stands still or steps back. |
| Governor.BucketState.TryConsume | crates/rat-brain/src/governor.rs:44-51 | Takes one whole token or nothing. |
| Governor.Governor.constructor | crates/rat-brain/src/governor.rs:55-65 | The three capacities and refill times, all buckets full, no history. |
| Governor.Governor.AdmitCall | crates/rat-brain/src/governor.rs:67-91 | At most eight admissions in the pruned window, then one token of the mode's own bucket, unknown modes spending from mentor; a denial only prunes and refills. |
| Governor.RefillComposes | crates/rat-brain/src/governor.rs:29-42 | Refilling at t and then at u is refilling once at u, in spite of the cap. |
| Governor.DeniedIsInvisible | crates/rat-brain/src/governor.rs:67-91 | After a denied call no later call can tell that it happened. |
| Governor.DeniedCallsLeaveNoTrace | crates/rat-brain/src/governor.rs:67-91 | Removing any set of denied calls from any run of mixed modes leaves every other decision unchanged. |
| Governor.WindowIsHistory | crates/rat-brain/src/governor.rs:67-70 | Pruning is harmless: counting the window from any point of the last hour on counts the run's admissions there. |
| Governor.AtMostEightPerHour | crates/rat-brain/src/governor.rs:67-91 | In every run at most 8 admissions fall in any interval (t - 1 h, t]. |
| Governor.TokenAccount | crates/rat-brain/src/governor.rs:29-51 | Conservation: admissions since s plus tokens left never exceed the capacity plus what s..now accrued. |
| Governor.BucketRate | crates/rat-brain/src/governor.rs:55-91 | Any closed interval [s, t] holds at most capacity + (t - s) / refill admissions of one bucket, unknown modes counted in mentor. |
| Governor.OneModePerHour | crates/rat-brain/src/governor.rs:55-91 | Calls of one mode are admitted at most 3 (mentor and unknown modes), 7 (chaos) or 1 (quiet) times in any hour, so the global cap of 8 never decides for them. |
| Governor.ModeRates | crates/rat-brain/src/governor.rs:55-91 | In numbers: any closed interval admits at most 2 + elapsed / 30 min calls of mode mentor, 2 + elapsed / 10 min of chaos and 1 + elapsed / 2 h of quiet. |
| Governor.ModeRested | crates/rat-brain/src/governor.rs:55-91 | And at least: while the hour has room, a mode with no admission for 30 min, 10 min or 2 h is admitted. |
| Governor.ModeBursts | crates/rat-brain/src/governor.rs:55-91 | Of calls of a mode never used before, all at one moment, exactly 2, 2 and 1 are admitted. |
| Governor.AdmittedIff | crates/rat-brain/src/governor.rs:67-91 | In terms of the run: a call is admitted if and only if the last hour has room and its own bucket holds a token. |
| Governor.TokensSince | crates/rat-brain/src/governor.rs:29-51 | A bucket nothing was taken from since t0 holds at least what t0..now is worth, up to its capacity. |
| Governor.AdmittedWhenRested | crates/rat-brain/src/governor.rs:67-91 | No starvation: a call whose bucket has rested for its refill time is admitted unless eight others were in the last hour. |
| Critic.KeyIsMultiset | crates/rat-brain/src/governor.rs:95-99 | For ids without the separator two dedupe keys are equal if and only if the evidence multisets are, but for one pair: no evidence and one empty id. For evidence that is not empty there is no exception. |
| Critic.SameEvidenceSameKey | crates/rat-brain/src/governor.rs:95-99 | Equal multisets have equal keys whatever the ids contain, in any order. |
| Critic.KeyCollision | crates/rat-brain/src/governor.rs:95-99 | Concrete colliding inputs: an id with the separator, and the excepted pair. |
| Critic.Critic.KeepValid | crates/rat-brain/src/critic.rs:362-369 | The evidence whose ids the digest contains, in order. |
| Critic.Critic.FindDupe | crates/rat-brain/src/critic.rs:422-450 | Found exactly when some stored pushback of the last 24 hours has the key of this evidence. |
| Critic.Critic.constructor | crates/rat-brain/src/critic.rs:124-137 | A daemon start: mentor mode for the critic's life, a full governor of its own, the rows already stored. |
| Critic.Critic.SlowTick | crates/rat-brain/src/critic.rs:345-464 | For all outcomes of a tick from the parsed verdict on: which row is stored, whether the governor is asked, and that the answer is a shown row or none; what that amounts to is in the next three rows. |
| Critic.StepRecords | crates/rat-brain/src/critic.rs:362-464 | One row is appended for a tick with a pushback, some of its evidence in the digest, and confidence under 0.6, or a denial, or no row of the same evidence in 24 hours; none for another tick. It holds that tick's evidence, confidence and time and is shown only in the last case. |
| Critic.TableIsHistory | crates/rat-brain/src/critic.rs:362-464 | Over every run: the table is what it was, then in order and one for one the rows of the ticks that leave one, each as above, and nothing else. |
| Critic.QueuedBlocks | crates/rat-brain/src/critic.rs:406-450 | A row queued for confidence under 0.6 keeps any later tick with the same evidence multiset from showing for 24 hours. |
| Critic.NoRepeatWithin24h | crates/rat-brain/src/critic.rs:422-458 | Over every sequential run, from any store that already has the property, no pushback is shown within 24 hours after a stored one with the same evidence multiset. |
| Critic.ShownIff | crates/rat-brain/src/critic.rs:411-458 | For ids without the separator an admitted tick shows its pushback if and only if no row of the last 24 hours has its evidence multiset (nor, against one empty id, none). |
| Critic.ShownRowsAreGrounded | crates/rat-brain/src/critic.rs:362-458 | From any store, so across restarts, a run keeps the shown rows it found and adds exactly one for each tick that showed, with non-empty evidence inside that tick's digest and confidence at least 0.6. |
| Critic.ShowingIsAdmitted | crates/rat-brain/src/critic.rs:411-458 | In any interval no more pushbacks are shown than the governor admitted there: each spends its own admission. |
| Critic.ShownRate | crates/rat-brain/src/critic.rs:411-458 | One process shows, by ticks starting in any closed interval, at most what its mode's bucket holds when full plus what it accrues in the interval. |
| Critic.ShownPerHour | crates/rat-brain/src/critic.rs:411-458 | In any hour that is at most 3 pushbacks for the mentor, 7 for chaos and 1 for quiet. |
| Critic.StoredPerHour | crates/rat-brain/src/critic.rs:411-458 | By the time stored on the rows it is one more: only the first of an hour's rows can come from a tick that started before the hour. |
| CriticLives.MentorMeetsItsCaps | crates/rat-brain/src/critic.rs:411-458 | Both mentor bounds are attained by a concrete run: 3 started and 4 stored in one hour. |
| CriticLives.ShownAcrossRestarts | crates/rat-brain/src/critic.rs:124-137 | Across any restarts an hour shows at most the mode's cap for each process that ticked in it. |
| CriticLives.StoredAcrossRestarts | crates/rat-brain/src/critic.rs:124-137 | By row time it is one more in all, not one more for each process. |
| CriticLives.NoCapAcrossRestarts | crates/rat-brain/src/critic.rs:124-137 | No number bounds it without counting restarts: for every k, k processes show and store k pushbacks within k milliseconds, in any mode. |
| CriticLives.NoRepeatAcrossRestarts | crates/rat-brain/src/critic.rs:422-458 | The 24-hour dedupe holds across any number of restarts. |
| CriticLives.RowsAcrossRestarts | crates/rat-brain/src/critic.rs:362-458 | Across restarts no shown row is lost and exactly one grounded row is added for each tick that showed. |
| Calendar.EraIsFloor | crates/rat-memory/src/jobs.rs:457 | The branch on negative days makes the truncating division a floor. |
| Calendar.YoeBrackets | crates/rat-memory/src/jobs.rs:459 | For every day of the era the closed form names the year that begins on or before the day and ends after it. |
| Calendar.CivilIsCalendar | crates/rat-memory/src/jobs.rs:455-465 | Every integer day number yields a valid Gregorian date, and the next day number yields the calendar successor. |
| Calendar.EpochIsDayZero | crates/rat-memory/src/jobs.rs:454-465 | Day 0 is 1970-01-01. |
| Calendar.DatesAreOrdered | crates/rat-memory/src/jobs.rs:455-465 | Date order is day order. |
| Calendar.DayNumberInverts | crates/rat-memory/src/jobs.rs:455-465 | Counting the date's years, months and days by month lengths and leap years gives the day number back. |
| Calendar.DateIsUtcDayIff | crates/rat-memory/src/jobs.rs:452-466 | The printed date is that of the UTC day if and only if the time is not before the epoch or falls on midnight. |
| Calendar.OneSecondBeforeTheEpoch | crates/rat-memory/src/jobs.rs:452-466 | The failing side made concrete: second -1 is printed as 1970-01-01 although its day is 1969-12-31. |
| Approvals.ApprovalStore.DecideApproval | crates/rat-store/src/store.rs:2761-2784 | Not found, invalid state without any change, or exactly one pending row decided. |
| Approvals.ApprovalStore.ExpireApprovals | crates/rat-store/src/store.rs:2798-2805 | Exactly the pending rows at or past their deadline expire, and their number is returned. |
| Approvals.ApprovalStore.SetApprovalExecution | crates/rat-store/src/store.rs:2786-2796 | Only the execution of the named row changes. |
| Approvals.VerdictIsFinal | crates/rat-store/src/store.rs:2761-2805 | In every interleaving, once a row has left pending its status, decision time and channel never change. |
| Approvals.DecidedAtMostOnce | crates/rat-store/src/store.rs:2761-2784 | No two decisions of a run are about the same approval. |
| Approvals.MergedAtMostOnce | crates/rat-workbench/src/runner.rs:347-393 | Each approval is merged at most once, only if its kind is merge_back, only after the very task that merges it approved it over RPC, with a check time before its deadline. |
| Approvals.OnlyApprovedIsMerged | crates/rat-workbench/src/runner.rs:347-361 | Nothing pending, denied or expired is ever merged. |
| Approvals.OneHolder | crates/rat-daemon/src/server.rs:697-722 | In every interleaving at most one task at a time carries the right to merge an approval. |
| Approvals.RpcCall | crates/rat-daemon/src/server.rs:623-750 | One whole RPC decision in every reachable state: it lands if and only if the row is pending and the caller may decide it, and then sets status, time and channel; it merges and records the execution if and only if it approves a merge_back row before its deadline and git succeeds; otherwise nothing changes. |
| Approvals.ApprovalMergesIff | crates/rat-daemon/src/server.rs:697-722 | A decided approval of a pending merge_back row is merged by its task if and only if the clock is before the deadline. |
| Approvals.VoiceCall | crates/rat-daemon/src/voice_loop.rs:101-138 | One whole voice decision: it lands if and only if the row is pending, below risk 3 and its slug was spoken, stamped with the time of the utterance; otherwise nothing changes. |
| Approvals.SweepCall | crates/rat-daemon/src/main.rs:375-391 | One whole sweep: exactly the pending rows due at that time expire. |
| Approvals.RiskThreeNeedsSlug | crates/rat-daemon/src/server.rs:653-695 | A risk-3 approval is only ever decided over RPC by a caller who gave its slug; voice decides below risk 3 only. |
| Approvals.DeadlineStopsMerges | crates/rat-workbench/src/runner.rs:356-361 | From the deadline on no merge passes its check, even when the approval itself is granted late. |
| Approvals.RowsAreHonest | crates/rat-store/src/store.rs:2761-2805 | A row has a verdict if and only if exactly that verdict was given over the channel it names; expired rows are past their deadline; only merged rows have an execution. |
| Approvals.StatusIff | crates/rat-store/src/store.rs:2761-2805 | In every interleaving a row is pending if and only if no decision about it landed and no sweep saw its deadline passed; decided if and only if a decision landed; expired if and only if a sweep was first. |
| Approvals.DecisionLandsIff | crates/rat-daemon/src/server.rs:696-748 | A decision about to be sent, by RPC or by voice, lands if and only if no other landed and no sweep closed the row before, however late it is; otherwise it changes nothing. |
| Approvals.LateGrant | crates/rat-store/src/store.rs:2761-2784 | Such a late grant made concrete: a run that approves at time 20 a row whose deadline was 10. |
| Jsonc.LexReads | crates/rat-dotfile/src/lib.rs:186-232 | Every text is the rendering of well-formed tokens: literals, line comments, block comments, other characters. |
| Jsonc.LexIsUnique | crates/rat-dotfile/src/lib.rs:186-232 | It is so in one way only. |
| Jsonc.StripKeepsTokens | crates/rat-dotfile/src/lib.rs:186-232 | Stripping drops exactly the comments of that reading and keeps the newline that ends a line comment. |
| Jsonc.StripTokens | crates/rat-dotfile/src/lib.rs:186-232 | The same for any well-formed token sequence written out as text. |
| Jsonc.StrippedReads | crates/rat-dotfile/src/lib.rs:186-232 | The stripped text reads as the remaining tokens: removing a comment never creates a new comment or literal. |
| Jsonc.StripIsIdempotent | crates/rat-dotfile/src/lib.rs:186-232 | Stripping twice is stripping once. |
| Jsonc.LiteralsSurvive | crates/rat-dotfile/src/lib.rs:192-207 | Every string literal survives, unchanged and in order. |
| Jsonc.LiteralLaw | crates/rat-dotfile/src/lib.rs:192-207 | A closed string literal is copied whatever it contains, and what follows it is stripped on its own. |
| Jsonc.LineLaw | crates/rat-dotfile/src/lib.rs:208-217 | Two slashes up to the next newline leave that newline, and what follows is stripped on its own. |
| Jsonc.BlockLaw | crates/rat-dotfile/src/lib.rs:218-228 | A slash and a star up to the next star and slash leave nothing, and what follows is stripped on its own. |
| Jsonc.SkipLine | crates/rat-dotfile/src/lib.rs:208-217 | The rest of a line comment is consumed, its newline kept. |
| Jsonc.SkipBlock | crates/rat-dotfile/src/lib.rs:218-228 | The rest of a block comment is consumed, the overlapping opening not counted as its end. |
| Jsonc.StripComments | crates/rat-dotfile/src/lib.rs:186-232 | The character loop with its string and escape flags computes the stripped text of the theorems above. |
| JsoncTokens.TokensKeptIff | crates/rat-dotfile/src/lib.rs:186-232 | The stripped text has the same tokens as the original, comments taken as separators, if and only if nowhere two atoms have only block comments between them. |
| JsoncTokens.JointsCount | crates/rat-dotfile/src/lib.rs:218-228 | Each such place costs the stripped text exactly one token. |
| JsoncTokens.CommentIsNoSeparator | crates/rat-dotfile/src/lib.rs:218-228 | The failing side made concrete: 1, an empty block comment and 2 become the number 12. |
| McpCommands.WalkIsExact | crates/rat-dotfile/src/lib.rs:132-167 | In the document's own terms: a document is accepted if and only if every field whose key is `command` and whose value is a string names a known command, at any depth; otherwise the first one that does not, in document order, is reported. |
| McpCommands.FieldsExact | crates/rat-dotfile/src/lib.rs:153-158 | The same for an object's fields: a field's own command comes before what the field holds, and earlier fields before later ones. |
| McpCommands.ItemsExact | crates/rat-dotfile/src/lib.rs:159-163 | The same for an array's elements, whose own strings are never taken for commands. |
| Validation.AcceptedIff | crates/rat-dotfile/src/lib.rs:65-98 | An edit is accepted if and only if its kind is known, it parses as that kind, and a JSON document names no missing command at any depth. |
| Validation.MissingIsFirst | crates/rat-dotfile/src/lib.rs:132-146 | A refusal over a command names the first missing one in document order. |
| Validation.RefusalIs | crates/rat-dotfile/src/lib.rs:65-98 | Each refusal is given if and only if its own condition holds: kind outside the six names, bytes no UTF-8, JSON, TOML or YAML that does not parse, or a missing command. |
| Validation.CommentsDoNotMatter | crates/rat-dotfile/src/lib.rs:74-80 | Two commented documents with the same tokens outside comments get the same verdict. |
| Shell.QuotedIsOneWord | crates/rat-workbench/src/runner.rs:532-535 | For every string a POSIX reader reads its quoted form as exactly one word equal to it. |
| Shell.QuoteReads | crates/rat-workbench/src/adapter.rs:265-268 | In any unquoted context a quoted string adds exactly its own characters to the current word. |
| Shell.HeadlessReads | crates/rat-workbench/src/adapter.rs:209-247 | The adapter command reads as its intended words, the task being one of them, whatever follows. |
| Shell.DockerReads | crates/rat-workbench/src/runner.rs:464-471 | The docker command reads as its intended twelve words for every image, path and inner command. |
| Shell.DockerCommandNests | crates/rat-workbench/src/runner.rs:464-471 | Reading the last docker argument again recovers the adapter command with the original task as one argument. |
| Shell.WrappedCommandReads | crates/rat-workbench/src/runner.rs:473-496 | The line typed into the pane is exactly the intended words and operators plus the status report, for both backends. |
| Clipboard.BoundaryIsPrefixEnd | crates/rat-sensors/src/clipboard.rs:61-64 | The one-byte boundary test finds exactly the ends of whole-character prefixes. |
| Clipboard.EncodeIs | crates/rat-sensors/src/clipboard.rs:56-66 | The characters are encoded as the standard says: shortest form, bits in place. |
| Clipboard.EventFor | crates/rat-sensors/src/clipboard.rs:45-76 | Skip, redact, keep, or the longest prefix of whole characters that fits in 4096 bytes, at least 4093 bytes long. |
| Clipboard.LongestFitIsUnique | crates/rat-sensors/src/clipboard.rs:56-66 | That prefix is determined by the text. |
| Commands.StripEnvAssignments | crates/rat-brain/src/detect.rs:36-51 | The loop drops the leading assignments and stops at the first other word. |
| Commands.EnvIff | crates/rat-brain/src/detect.rs:19-34 | A word is an assignment if and only if it starts with a key of A-Z, digits and underscores, not led by a digit, and an equals sign. |
| Commands.DropEnvIs | crates/rat-brain/src/detect.rs:36-51 | What is left starts at the first word that is no assignment. |
| Commands.BlankIff | crates/rat-brain/src/detect.rs:20-57 | Words are separated by exactly the 25 characters of Unicode White_Space. |
| Commands.NormalizeIsWords | crates/rat-brain/src/detect.rs:53-57 | A normalised command is the words of the command after its leading assignments, joined by single blanks. |
| Commands.NormalizedLayout | crates/rat-brain/src/detect.rs:53-57 | A normalised command is its words with one space, character 32, between neighbours and nothing else. |
| Commands.NormalizeIsIdempotent | crates/rat-brain/src/detect.rs:53-57 | Normalising twice is normalising once. |
| Commands.SameGroupIff | crates/rat-brain/src/detect.rs:53-68 | Two commands share a group if and only if they agree word for word after their leading assignments. |
| Commands.SpacingAndEnvDoNotMatter | crates/rat-brain/src/detect.rs:19-57 | Any re-spacing and any number of assignments in front leave the normalised command unchanged. |
| Detect.WindowIsCluster | crates/rat-brain/src/detect.rs:72-84 | The first window of neighbours in time order that fits the span is a cluster of distinct failures, named by its ids in order, and no cluster is complete before it. |
| Detect.ClusterHasWindow | crates/rat-brain/src/detect.rs:72-84 | If any cluster exists then some window of neighbours fits: sliding misses nothing. |
| Detect.FirstWindow | crates/rat-brain/src/detect.rs:75-84 | The scan finds the first fitting window, and one whenever there is any. |
| Detect.GroupFailures | crates/rat-brain/src/detect.rs:63-68 | Each command's group is the positions of its failures in order. |
| Detect.FailedIs | crates/rat-brain/src/detect.rs:15-17 | A failure is a shell_cmd observation with an exit code other than zero; without one it succeeded. |
| Detect.ScanGroup | crates/rat-brain/src/detect.rs:70-88 | A group signals if and only if three of its failures lie within ten minutes. |
| Detect.StuckLoopSignal | crates/rat-brain/src/detect.rs:59-89 | A signal if and only if some three distinct failures of one normalised command lie within 600 000 ms, for every order of the groups. It names three neighbours in time order, the earliest complete such cluster of its command, and counts all failures of it. |
| Detect.ErrorBurstSignal | crates/rat-brain/src/detect.rs:91-108 | A signal if and only if some ten distinct failures lie within 300 000 ms. It names ten neighbours in time order, the earliest complete such cluster. |
| Fusion.RrfFuse | crates/rat-memory/src/retrieve.rs:29-52 | For every k, each id of the union once, scored by the sum of 1 / (k + rank) over its places (infinite where a denominator is zero), by descending score and then id. |
| Fusion.Drain | crates/rat-memory/src/retrieve.rs:41-44 | Each entry of the score map once, in any order. |
| Fusion.ScoreIsSum | crates/rat-memory/src/retrieve.rs:32-39 | For every k and any repeats a score is the sum over all places in both lists, added as reals, or infinity where k cancels a rank. |
| Fusion.ScoreOnce | crates/rat-memory/src/retrieve.rs:32-39 | For duplicate-free lists and k at least 0 an id at ranks i and j carries 1 / (k + i) + 1 / (k + j), and an id in one list that one term. |
| Fusion.SecondTwiceBeatsFirstOnce | crates/rat-memory/src/retrieve.rs:29-52 | With the daemon's k an id second in both lists comes before one that is first in only one. |
| Order.LessIff | crates/rat-memory/src/retrieve.rs:45-50 | Ids are compared lexicographically: a proper prefix, or smaller at the first difference. |
| Fusion.FusionIsUnique | crates/rat-memory/src/retrieve.rs:29-52 | Exactly one list meets that description, so the map's iteration order cannot show. |
| Fusion.FusionIsSymmetric | crates/rat-memory/src/retrieve.rs:29-52 | Swapping the lists does not change the result. |
| Fusion.DominanceIsRespected | crates/rat-memory/src/retrieve.rs:29-52 | For k at least -1 and duplicate-free lists an id ahead of another in one and not behind it in the other comes strictly first. |
| Fusion.DominanceIff | crates/rat-memory/src/retrieve.rs:29-52 | That holds for all lists if and only if k is at least -1. |
| Decay.MemoryStore.UpdateConfidence | crates/rat-store/src/store.rs:1963-1975 | Only the named row changes, stamped with the store's clock. |
| Decay.MemoryStore.Archive | crates/rat-store/src/store.rs:1977-1984 | Only the named row changes: archived, stamped, its confidence kept. |
| Decay.MemoryStore.DecayAll | crates/rat-memory/src/jobs.rs:294-323 | Every memory takes exactly one nightly step, stamped during the job, in any order of the rows. |
| Decay.EffectiveIff | crates/rat-memory/src/jobs.rs:295-305 | A job writes a memory if and only if it is not archived and was last written more than 30 days before the job. |
| Decay.ConfidenceAfter | crates/rat-memory/src/jobs.rs:304-321 | After k effective steps the confidence is k decays of the first; archived if and only if that falls under the threshold. |
| Decay.DecayedIsPower | crates/rat-memory/src/jobs.rs:306 | k decays multiply the confidence by the k-th power of 0.95. |
| Decay.ArchivedStays | crates/rat-memory/src/jobs.rs:296-302 | An archived memory never takes another step. |
| Decay.StepsAreFarApart | crates/rat-memory/src/jobs.rs:295-305 | Two steps of one memory are more than 30 days apart. |
| Decay.ArchivedByStep32 | crates/rat-memory/src/jobs.rs:304-321 | Confidence at most 1 is archived no later than the 32nd step. |
| Decay.FullConfidenceLasts31 | crates/rat-memory/src/jobs.rs:304-321 | The bound is tight: confidence 1 is archived at step 32 exactly. |
| Retention.ProtectedIds | crates/rat-memory/src/jobs.rs:336-361 | The spared ids are exactly those cited by some memory or some pin. |
| Retention.NamesIff | crates/rat-memory/src/jobs.rs:336-361 | An id is cited by a source if and only if the source is an array with that string among its items. |
| Retention.ObservationStore.Insert | crates/rat-store/src/db.rs:113-115 | The insert trigger keeps the index a mirror of the table. |
| Retention.ObservationStore.DeleteRow | crates/rat-store/src/db.rs:116-118 | The delete trigger keeps it a mirror too. |
| Retention.ObservationStore.SelectEligible | crates/rat-store/src/store.rs:2536-2551 | Any choice of eligible ids, as many as the limit allows. |
| Retention.ObservationStore.DeleteOlderThan | crates/rat-store/src/store.rs:2517-2579 | Removes eligible rows only, all of them if fewer than the limit, from table, index and embeddings alike, and counts them. |
| Retention.ObservationStore.Prune | crates/rat-memory/src/jobs.rs:366-377 | For every choice the unordered LIMIT makes the loop ends with exactly the eligible rows gone and their number reported. |
| Retention.ObservationStore.PruneNightly | crates/rat-memory/src/jobs.rs:325-377 | What stays is exactly what is younger than the cutoff or cited; embeddings lose exactly the deleted ids. |
| Dotfile.Editor.InsertBlob | crates/rat-store/src/store.rs:2963-3001 | The returned blob holds the bytes; stored bytes are reused, new ones are added under the fresh id, nothing else changes. |
| Dotfile.Editor.WriteAndRecord | crates/rat-dotfile/src/lib.rs:107-126 | What apply and revert share: the file holds the new bytes, the new row's blobs hold the bytes before and after, older blobs are kept. |
| Dotfile.Editor.ApplyEdit | crates/rat-daemon/src/server.rs:1031-1061 | The answer is the verdict of validation; a refused edit changes nothing; an accepted one writes the file and a row whose blobs are the bytes before and after. |
| Dotfile.ApplyWrites | crates/rat-daemon/src/server.rs:1031-1061 | In every sequential run an accepted edit writes its contents to its path alone and appends one unmarked row holding the bytes before (none for a missing file) and after; a refused one changes nothing. |
| Dotfile.Editor.RevertEdit | crates/rat-daemon/src/server.rs:1074-1126 | Succeeds if and only if the edit exists and is not yet reverted; then restores, records and marks it. |
| Dotfile.AuditRowsChain | crates/rat-daemon/src/server.rs:1031-1126 | At every point of every sequential run each row's before bytes are the previous row's after bytes, from the first content to the current one, path by path. |
| Dotfile.RevertedOnce | crates/rat-daemon/src/server.rs:1083-1085 | In no sequential run without crashes do two rows revert the same edit. |
| Dotfile.RevertRestores | crates/rat-daemon/src/server.rs:1074-1126 | In every sequential run, reverting an edit however much later gives its file exactly the bytes it held when that edit began, whatever was done in between, and changes no other file; the edit may itself be a revert. |
| Dotfile.ApplyThenRevert | crates/rat-daemon/src/server.rs:1031-1126 | In every sequential run, after an apply and its later revert the bytes are back; the file itself is restored if and only if it existed, and so is the whole file system when the revert follows at once. |
| DotfileCrashes.GapsAreCrashes | crates/rat-daemon/src/server.rs:1031-1126 | In runs with crashes each gap in a path's audit chain is owed to a crash that wrote the path and left no row. |
| DotfileCrashes.TornBreaksIff | crates/rat-dotfile/src/lib.rs:107-115 | Such a crash breaks a chained path if and only if it changed what the file holds. |
| DotfileCrashes.UntornIsChained | crates/rat-daemon/src/server.rs:1031-1126 | A path no such crash touched is still chained from its first bytes to its current ones. |
| DotfileCrashes.RevertsAreCounted | crates/rat-daemon/src/server.rs:1074-1126 | An edit has exactly one revert row for each revert a crash cut off before the mark, and one more if it is marked. |

## Left out

- Dotfile.Editor.RevertEdit: calls are sequential. The source checks `reverted_by` and sets it several awaits later, so two clients at once could both revert one edit.
- Dotfile: two spellings of one path are two files here and one in the file system.
- Concurrent `ingest` calls: the sessionizer lock is released before the updates are applied, so the session theorems are about one call at a time.
- Floating-point rounding: tokens, scores and confidences are real numbers.
- Integer widths: times, counters and day numbers are unbounded, so overflow of `u32` counters and `i64` times is not modelled.
- Fusion.RrfFuse: `k` is a real number, so `NaN` and infinite values of `k` are not modelled.
- Fresh ids: `new_id()` is a parameter assumed unused so far.
- SQLite itself: errors, variable limits and ranking are assumed away; the critic's fallback to an empty list when reading recent pushbacks fails is one of these.
- Dotfile.Editor.InsertBlob: the digest is assumed injective.
- Dotfile.Editor.ApplyEdit: the parsers, UTF-8 decoding and which commands exist are parameters; the atomic rename and its failures are not modelled.
- Clipboard.EventFor: whether text looks like a secret is a parameter, as it is decided by regular expressions; the length is in bytes as in the code.
- Approvals: titles, notes and payloads carry no claim; the outcome of git is an arbitrary flag, the spoken slug comparison is a flag, and agent run rows are not modelled.
- Critic.Critic.SlowTick: starts from the parsed verdict; the detectors' call, the prompt, the model call and the text fields of a pushback are not modelled.
- Ingest.Ingest.IngestEvent: starts after project resolution; the loop guard for the daemon's own commands, the event log and derived observations are not modelled.
- Shell: the reader declines characters that mean something unquoted (expansions, patterns, operators other than `&&`, `;` and `$?`) instead of interpreting them; no built command contains any outside quotes.
- Retention.ProtectedIds: the sort and deduplication of the list are not modelled, since only membership is asked of it.
- The date's four-digit formatting, search filters and recency boost, title slugs, the tier table, the intent router, the capture ring and all transport: they would only add easy members.
