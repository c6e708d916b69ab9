# ShellSentry: model and proofs

ShellSentry puts a recorded, scored and gated shell in front of a user. This project models its
decision logic and its protocols in Dafny and proves what they keep.

- `Text`, `Decimal`: the Go string routines the code leans on, and `%d` / `strconv.Atoi`.
- `Sentinel`: the marker protocol of the persistent shell as functions of the whole byte stream.
  `PtyShell`: the byte-at-a-time readers, proved against `Sentinel`, and whole sessions of calls.
- `CacheProtocol`: the per-user model cache as atomic steps of any number of threads, evictions and
  file rewrites. `ModelCache`: the cache as one uninterrupted caller sees it.
- `Artifacts`: the order in which a training run publishes its files, logins that read two of them, and
  the daemon's generation guard, on top of the cache protocol. `Daemon`: one request end to end.
- `Rules`, `LineCompleteness`, `Encoders`: the rule filter, the completeness test, and the frequency
  encoders with the novelty gate.
- `Repl`: the command loop of a session. `Sessions`: what it records. `Store`: the two tables and their
  retention. `Pipeline`: logins, saves, trainings and later logins put together.
- `TabCompletion`: completion of command names and paths.

Code that changes state step by step is a class or a method here and is proved equal to a function of
the state before; the theorems are about that function. Threads and processes that interleave
(the cache, training against logins and requests) are state machines whose steps are the atomic
actions of the code.

## Where the code and its documentation differ

The model follows the code.

- The `break` after a failed challenge (go/cmd/ssentry/repl.go:221) leaves the `switch`, not the loop, so
  the line is still run and, if the run succeeds, recorded, although README.md:111 and README.md:129 say
  the session ends. `Repl.HardRunPassedIff` says, line by line, exactly when a hard line runs with a
  password on record, and `Repl.HardRunsPassedIffNoBadOtp` says it of whole sessions;
  `Repl.FailedChallengeStillRuns` is a concrete session in which one runs without: the input ends at the
  password prompt. What does hold of every session is `Repl.SavedSessionsAreAuthorised`.
- The comment at go/adapters/ptyshell/shell.go:312 says an unexpected byte after the terminator is not
  swallowed; it is (`Sentinel.UnexpectedByteIsLost`).
- The comment at go/core/path.go:9 says the command word is not searched for a path; the callers pass it
  along (go/core/decide.go:12), so it is.
- The echo is recognised only when its line break is a bare LF. With the LF to CR LF translation that
  go/adapters/ptyshell/shell.go:95-98 asks for, an echo would be shown (`Sentinel.CrLfEchoIsShown`).
- Completing an ambiguous path again need not leave the line alone: when the offered names share a space,
  the cursor lands in a new token. `TabCompletion.AmbiguousPathIsFixpoint` has the exact condition in terms
  of what was offered; `TabCompletion.RepeatedCompletionGrows` has two names for which every further
  completion lengthens the line.
- The cache serves a model the file no longer holds when time and size of two versions are the same, or time
  goes backwards. `ModelCache.CallIsDirectUnlessStale` and `ModelCache.TransparentIffNeverStale` say exactly
  when it does not, version by version, `ModelCache.SameBytesUnlessWrong` and
  `ModelCache.SameBytesIffNeverWrong` when the bytes differ.

## Model

| member | source | states |
|---|---|---|
| Decimal.AtoiItoa | go/adapters/ptyshell/shell.go:274 | printing then parsing an exit code gives it back exactly if it is a 64-bit integer |
| Decimal.AtoiReads | go/adapters/ptyshell/shell.go:274 | an optional sign and at least one digit are read, if the number fits 64 bits |
| Decimal.AtoiRejects | go/adapters/ptyshell/shell.go:274 | and nothing else is |
| Decimal.ItoaInjective | go/adapters/ptyshell/shell.go:194 | different command numbers print differently |
| Sentinel.InjectPrintsMarker | go/adapters/ptyshell/shell.go:194-204 | the injected text is the line and a printf whose quoted format expands, for every nonce without backslash, percent sign and quote, every number and every exit code, to the marker the reader waits for, the code, a separator and a line break |
| Sentinel.HoldIsMinimal | go/adapters/ptyshell/shell.go:386-403 | what is held back can still become a marker, and what is released never becomes part of one, whatever follows |
| Sentinel.SafeGrows | go/adapters/ptyshell/shell.go:251 | a further byte never takes back what was safe to show |
| Sentinel.EchoIsFinal | go/adapters/ptyshell/shell.go:242-250 | the verdict on the echo is never revised by later bytes |
| Sentinel.EchoClosedForm | go/adapters/ptyshell/shell.go:232-250 | which bytes count as echo, by the common prefix with the injected text |
| Sentinel.FinalClosedForm | go/adapters/ptyshell/shell.go:213-293 | what a successful call shows is the bytes before the marker minus exactly the recognised echo: all of the injected text, or the line broken at or after the command's end, or nothing |
| Sentinel.LiveGrows | go/adapters/ptyshell/shell.go:251-257 | output shown while bytes arrive is only ever extended |
| Sentinel.OnlyTheHoldIsWithheld | go/adapters/ptyshell/shell.go:251-257 | once the echo is settled, exactly the possible start of a marker is withheld and everything before it has been shown or dropped |
| Sentinel.NothingLeftToFlush | go/adapters/ptyshell/shell.go:286-290 | when the marker completes the last flush has nothing to write |
| Sentinel.EchoDecidedByMarker | go/adapters/ptyshell/shell.go:282-285 | the fallback for an undecided echo is never reached |
| Sentinel.ExactEchoIsDropped | go/adapters/ptyshell/shell.go:246-248 | a byte-for-byte echo is dropped and nothing else |
| Sentinel.CrLfEchoIsShown | go/adapters/ptyshell/shell.go:246-248 | an echo whose line break arrives as CR LF is shown |
| Sentinel.PlainOutputIsShown | go/adapters/ptyshell/shell.go:233-249 | output that does not begin like the injected text is shown whole |
| Sentinel.MarkerBorder | go/adapters/ptyshell/shell.go:194 | a marker overlaps itself only by one separator |
| Sentinel.MarkerFoundInPlace | go/adapters/ptyshell/shell.go:231 | the search finds the printed marker and no earlier one, if and only if the output followed by a separator does not contain it |
| Sentinel.FrameRoundTrip | go/adapters/ptyshell/shell.go:220-293 | a printed frame is read back exactly, whatever follows, if and only if its output followed by a separator does not contain its marker |
| Sentinel.FrameDrained | go/adapters/ptyshell/shell.go:302-315 | the drain takes exactly the frame's LF or CR LF |
| Sentinel.DrainTakesABreakIff | go/adapters/ptyshell/shell.go:302-315 | what is drained is a line break, or as much of one as there is, exactly when the first byte is LF, or is CR with LF or nothing after it |
| Sentinel.UnexpectedByteIsLost | go/adapters/ptyshell/shell.go:302-315 | any other byte after the terminator, or after a CR, is consumed |
| Sentinel.MarkersDiffer | go/adapters/ptyshell/shell.go:154-155 | two commands of a shell never share a marker |
| PtyShell.Shell.MarkerPrefixHold | go/adapters/ptyshell/shell.go:392-403 | the search loop returns the longest suffix that is a proper prefix of the marker |
| PtyShell.Shell.DrainMarkerEOL | go/adapters/ptyshell/shell.go:302-315 | the drain loop takes what `EolTaken` says |
| PtyShell.Shell.ReadExitCode | go/adapters/ptyshell/shell.go:264-277 | reads up to the next separator and decodes what precedes it, with both error cases |
| PtyShell.Shell.ShowLive | go/adapters/ptyshell/shell.go:232-258 | after each byte exactly the newly released part of the live output is written |
| PtyShell.Shell.ShowRest | go/adapters/ptyshell/shell.go:279-290 | the last write completes the final output |
| PtyShell.Shell.RunCommand | go/adapters/ptyshell/shell.go:153-294 | the byte-wise loop answers, consumes and shows what the whole-stream reading of the input says; it times out exactly when the loop comes to find the deadline passed, before a marker and before a failing write; for a clean line a success has shown the bytes before the marker without the echo; a deadline or a failing terminal leaves only a prefix of that output |
| PtyShell.AnswerIsDetermined | go/adapters/ptyshell/shell.go:213-294 | the bytes that arrive, the deadline and the terminal's room fix the answer, what is left of the stream and what the user sees |
| PtyShell.FailsAtOnePlace | go/adapters/ptyshell/shell.go:252-256 | a failing terminal stops the call after exactly one number of bytes, that of the first write that does not fit |
| PtyShell.Shell.RunCaptured | go/adapters/ptyshell/shell.go:336-384 | the same for a captured call, and the user's terminal is not touched; it times out exactly when the deadline is found passed before the marker |
| PtyShell.Shell.Cwd | go/adapters/ptyshell/shell.go:324-330 | whatever the captured `pwd` answers, timing out exactly when it does: its error, or its output without echo and outer white space |
| PtyShell.DirectoryIsTold | go/adapters/ptyshell/shell.go:324-330 | the directory that `pwd` printed is told, echoed or not, with LF or CR LF |
| PtyShell.LiveIsPrefixOfReply | go/adapters/ptyshell/shell.go:251-256 | everything shown before a failure is a prefix of what the whole call shows |
| PtyShell.ExchangeRoundTrip | go/adapters/ptyshell/shell.go:153-384 | a call takes exactly its own frame off the stream and answers with it, the frame being what the injected text makes the shell print for a nonce that prints as it is |
| PtyShell.SessionRoundTrip | go/adapters/ptyshell/shell.go:153-384 | over any sequence of calls, for a nonce that prints as it is, by what their injected texts make the shell print, each gets its own output and code, and the stream stays aligned |
| CacheProtocol.StepKeepsInv | python/model_cache.py:71-148 | every atomic step of every thread, eviction, rewrite and removal, whatever the times of the files, keeps: a cached model is never older than its key's version and has passed the checks; a returned one has passed them, and is recent enough if the version its stat saw can be told from every earlier one |
| CacheProtocol.ReturnedModelsAreFresh | python/model_cache.py:71-140 | under all interleavings: if no version before the one a call's stat saw has the same time and size or a later time, a returned model is at least as new as that version; it passed the signature check when a key is set, and decodes |
| CacheProtocol.CachedModelsWereChecked | python/model_cache.py:54-58 | over every run, whatever the times of the files, every cached model is the content of a version of the file, whose very bytes passed the signature check when a key is set, and decodes |
| CacheProtocol.ReturnedModelsWereChecked | python/model_cache.py:97-140 | so is every model that a call returns |
| ModelCache.ModelCache.GetModel | python/model_cache.py:71-140 | result, entry and file after an uninterrupted call, with the error cases; other users are untouched |
| ModelCache.ModelCache.Score | python/model_cache.py:54-58 | the score of the selected model, or the no-model score; entry and file as after the lookup |
| ModelCache.ModelCache.EvictIdle | python/model_cache.py:142-148 | removes exactly the entries idle for longer than the limit and counts them |
| ModelCache.CallIsRun | python/model_cache.py:71-140 | an uninterrupted call is a run of the concurrent protocol |
| ModelCache.FirstCallLoadsIff | python/model_cache.py:71-140 | without an entry a call returns a model if and only if it is the latest version of a file that is there, decodes, and, when a key is set, has a sidecar that accepts its very bytes; it is then remembered under time and size |
| ModelCache.FirstRunLoadsIff | python/model_cache.py:71-140 | the same of the steps of an uninterrupted thread, in any state of the concurrent protocol |
| ModelCache.RewriteIsServed | python/model_cache.py:80-140 | after a rewrite whose time and size are new the next call returns the new bytes exactly if they decode and their sidecar accepts them; a file that does not decode is removed |
| ModelCache.CallIsDirectUnlessStale | python/model_cache.py:71-140 | one call through the cache selects what loading the file selects if and only if the slot is not stale, which its entry and file show before the call |
| ModelCache.NoGoodSlotIsStaleIff | python/model_cache.py:80-140 | no entry makes the slot stale if and only if no earlier version that decodes has the latest one's time and size, or a later time when the latest would be accepted |
| ModelCache.CallIsDirect | python/model_cache.py:71-140 | so it does where the latest version can be told by time and size from every earlier one and none has a later time |
| ModelCache.TransparentIffNeverStale | python/model_cache.py:71-148 | over any history of rewrites, removals, sweeps and calls every call returns what loading directly returns, if and only if no call meets a stale slot |
| ModelCache.SweepIsEviction | python/model_cache.py:142-148 | a sweep of such a history is what an eviction does to the one user |
| ModelCache.CacheIsTransparent | python/model_cache.py:71-148 | where times never decrease and time and size tell versions apart, the cache is invisible over every history |
| ModelCache.SameBytesUnlessWrong | python/model_cache.py:71-140 | from any slot, one call selects the bytes that loading the file selects if and only if the slot is not wrong: versions with equal bytes count as equal |
| ModelCache.WrongIsStale | python/model_cache.py:71-140 | only a stale slot can be wrong |
| ModelCache.SameBytesIffNeverWrong | python/model_cache.py:71-148 | over any history, from any slot, every call selects the bytes that loading directly selects if and only if no call meets a wrong slot; then the files end up the same |
| ModelCache.SharedKeyHidesRewrite | python/model_cache.py:80-87 | a call after a rewrite with the same time and size gets the old model |
| ModelCache.BackwardTimeHidesRewrite | python/model_cache.py:135-140 | a call after a rewrite with an earlier time gets the old model |
| Artifacts.StepKeepsInv | python/trainer.py:63-83 | every step of training, login, request and cache, whatever the times of the files, keeps the chain of generations and what guarded requests know |
| Artifacts.GenerationsAreChained | go/cmd/ssentry/train.go:148-174 | over every run, crashes included and whatever the times of the files, gen(model) >= gen(thresholds) >= gen(meta) >= gen(dicts), and a login never pairs dictionaries with older thresholds |
| Artifacts.NewLogin | go/cmd/ssentry/main.go:241-275 | reading dictionaries before thresholds keeps a login consistent |
| Artifacts.LoginIsTwoReads | go/cmd/ssentry/main.go:241-275 | a session has the dictionaries of its first read and the thresholds of its second, whatever happens in between |
| Artifacts.ThresholdsFirstIsInconsistent | go/cmd/ssentry/main.go:241-275 | the other order does not: a training run of a newer generation that completes between the reads leaves dictionaries newer than the thresholds |
| Artifacts.RepliesAreGuarded | python/daemon.py:73-87 | if the version of the user's file that the request's stat saw can be told by time and size from every earlier one and none has a later time: a scored model is never older than the session's thresholds; its generation is the session's or belongs to a run whose meta file was not yet out; at rest it is exactly the session's |
| Daemon.Server.Process | python/daemon.py:73-87 | guard, vector, cache in this order; entry and file after a reply are those after the lookup, and nothing is touched without a reply |
| Daemon.ServedAsTrained | python/daemon.py:73-87 | unless the slot is wrong, a session's request is answered exactly when generations allow, with the score the model on disk gives to the row training would use |
| Rules.SplitSegments | go/core/rules.go:77-102 | the scanner with look-ahead refines the plain split at operator characters |
| Rules.SegmentsArePlain | go/core/rules.go:77-102 | no segment holds a semicolon, an ampersand or a pipe, and a line without them is one segment, trimmed, or none when it is blank |
| Rules.TokenPrefixMatch | go/core/rules.go:109-128 | true exactly when the words of some non-blank entry start the line's words |
| Rules.Check | go/core/rules.go:34-70 | the loops compute the verdict defined by quantifiers over the segments |
| Rules.SegmentsOfChain | go/core/rules.go:77-102 | with operator characters between them, one or several, the segments of two lines are put one after the other |
| Rules.ChainLaw | go/core/rules.go:34-70 | for each of the five operators, the pipe and the doubled ones among them, the verdict on a chain is the join of the verdicts on its parts |
| Rules.OutcomeIff | go/core/rules.go:34-70 | each outcome exactly when: hard for a denied command or country, else allowed for an allowed country or only allowed commands that hide nothing, else soft when it comes too soon |
| Rules.DenyingMoreOnlyHardens | go/core/rules.go:34-44 | more deny entries leave a verdict or make it hard, whatever allows the line |
| Rules.AllowingMoreNeverUndoesDeny | go/core/rules.go:34-64 | more allow entries leave a verdict or let a line pass that was not hard |
| Rules.AllowedLinesHideNothing | go/core/rules.go:49-64 | a line allowed by its commands has only allowed commands, none denied and none that can hide another |
| Rules.CheckByTokens | go/core/rules.go:34-141 | the verdict depends only on the words of the commands, as a one-pass lexer finds them |
| Rules.WhitespaceInsensitive | go/core/rules.go:34-141 | replacing a run of white space by another never changes the verdict |
| LineCompleteness.LineComplete | go/core/complete.go:11-54 | the four-variable loop computes the automaton's verdict |
| LineCompleteness.DepthIsMaxSuffixExcess | go/core/complete.go:35-41 | the clamped counter is the largest excess of active opens over active closes in any suffix |
| LineCompleteness.VerdictIsMeaning | go/core/complete.go:43-53 | however a line reads as quoted pieces and an open end, the verdict and its reason are those of that reading |
| LineCompleteness.CompleteIffWellFormed | go/core/complete.go:11-54 | a line is complete exactly when it reads as whole pieces with every active `(` closed later |
| LineCompleteness.CompleteLineIsNeutral | go/core/complete.go:11-54 | what follows a complete line is judged on its own, for every continuation |
| Encoders.DetectPath | go/core/path.go:10-28 | the first path-like word, or none when there is none |
| Encoders.PathLikeIff | go/core/path.go:19-28 | a word is path-like exactly when it holds a slash or starts with a tilde |
| Encoders.CommandIsFirstWord | go/core/decide.go:7-13 | the command is the first word of the line, its arguments are all words |
| Encoders.BuildDicts | go/core/training.go:22-41 | the counting loop yields the occurrence counts of commands, countries and paths |
| Encoders.BuildMatrix | go/core/training.go:46-61 | one row per training row, in order |
| Encoders.MatrixRowCounts | go/core/training.go:46-61 | the columns of a row: time, how often its country, command and path occur in the training rows, and spacing |
| Encoders.DictsIgnoreOrder | go/core/training.go:22-41 | dictionaries do not depend on the order of the rows |
| Encoders.DictsAreAdditive | go/core/training.go:22-41 | counts add up over concatenation |
| Encoders.CountsAreConserved | go/core/training.go:22-41 | the counts sum to the number of rows that have a command, a country, a path |
| Encoders.TrainServeAgreement | go/core/feature.go:31-41 | the daemon's vector for a feature is the matrix row of the same line, country, time and spacing |
| Encoders.NoveltyIsExact | go/cmd/ssentry/repl.go:89-107 | a command, country or path is flagged exactly when some training row has one and none has this one |
| Encoders.GateSpeaks | go/cmd/ssentry/repl.go:89-107 | the gate gives the configured severity exactly when something is novel, and names it |
| Encoders.TrainingRowsAreNeverNovel | go/cmd/ssentry/repl.go:89-107 | no training row is novel to its own dictionaries |
| Sessions.Session.Add | go/core/session.go:21 | appends the record |
| Sessions.FlattenRows | go/cmd/ssentry/train.go:181-196 | one row per stored command, sessions and commands in order |
| Sessions.StoredCommandsTrainAsScored | go/cmd/ssentry/train.go:181-196 | a stored command's row is the vector it was scored by |
| Repl.ReadLine | go/cmd/ssentry/repl.go:22-37 | the byte-wise reader splits at the first line break and never reads past it |
| Repl.SeverityIsStrongest | go/cmd/ssentry/repl.go:171-202 | deny is always hard, allow asks nobody, otherwise the stronger of rule or model and novelty |
| Repl.AlertsWhileJudging | go/cmd/ssentry/repl.go:171-202 | which alerts are sent while a line is judged, and in which order |
| Repl.LowerScoresAreWorse | go/core/decide.go:25-34 | a lower score is never less severe; thresholds count |
| Repl.TurnConsumes | go/cmd/ssentry/repl.go:136-242 | a turn that does not leave the loop consumes input, so the loop halts on every finite input |
| Repl.OnlyJudgedLinesRun | go/cmd/ssentry/repl.go:136-227 | in every session only complete, non-blank lines other than `exit` are judged and run, each with the severity it was judged to have |
| Repl.ExitOrSkip | go/cmd/ssentry/repl.go:136-160 | `exit` ends the session with the rest unread; a blank or incomplete line has no effect |
| Repl.LoopKeepsInv | go/cmd/ssentry/repl.go:136-242 | the ordering of log events, the authorised set, validity and the tallies are kept over the whole loop |
| Repl.SavedSessionsAreAuthorised | go/cmd/ssentry/main.go:216-224 | records are exactly the successful runs in order, a session is valid exactly when nothing failed in it, whatever is passed is so right after a password that was accepted, and in a saved one each hard line that ran had been passed before |
| Repl.HardRunsPassedIffNoBadOtp | go/cmd/ssentry/repl.go:208-227 | hard lines run only after a password if and only if no challenge fails in the session |
| Repl.HardRunPassedIff | go/cmd/ssentry/repl.go:208-227 | at every line of a session: one that turns out hard is run with a pass on record exactly when it was authorised before or a password is accepted for it now |
| Repl.ChallengeLogs | go/cmd/ssentry/repl.go:260-287 | a challenge passes with the first password that is accepted and not otherwise, and fails only after all attempts or at the end of the input |
| Repl.FailedChallengeGoesOn | go/cmd/ssentry/repl.go:218-236 | after any failed challenge the line is run and recorded, and the loop goes on |
| Repl.FailedChallengeStillRuns | go/cmd/ssentry/repl.go:218-236 | a session with three attempts and a trained model in which the input ends at the prompt and the hard line runs |
| Repl.AlertsAndChallengesBalance | go/cmd/ssentry/repl.go:185-225 | hard evaluations are passed, cached and failed challenges together, soft ones are soft-log alerts, and validations are bounded by the retries |
| Repl.PassedOnce | go/cmd/ssentry/repl.go:215-223 | a line is passed at most once in a session |
| Repl.ValidityNeverReturns | go/cmd/ssentry/repl.go:219-233 | a spoiled session stays spoiled |
| Repl.SessionsRecordWell | go/cmd/ssentry/repl.go:161-236 | every record carries the feature its own line has under the session's dictionaries |
| Repl.CommandsAreTimed | go/cmd/ssentry/repl.go:161-237 | in every session each command has the time at which it was read and the whole seconds since the previous successful run ended, or the session began |
| Repl.Runner.ChallengeUser | go/cmd/ssentry/repl.go:260-287 | the retry loop is the recursive challenge |
| Repl.Runner.AssessLine | go/cmd/ssentry/repl.go:171-202 | rules, model and novelty, with their alerts |
| Repl.Runner.AuthorizeLine | go/cmd/ssentry/repl.go:208-225 | soft, cached, passed and failed lines |
| Repl.Runner.ExecuteLine | go/cmd/ssentry/repl.go:227-237 | a run is recorded, a shell error spoils and ends the session |
| Repl.Runner.RunREPL | go/cmd/ssentry/repl.go:122-245 | the loop ends in the session, log and input that the theorems are about |
| Store.SessionStore.SaveSession | go/adapters/sqlitestore/store.go:60-95 | one row for the session and one for each command |
| Store.SessionStore.PruneOldest | go/adapters/sqlitestore/store.go:118-140 | both deletes and the number returned |
| Store.SessionStore.LoadSessions | go/adapters/sqlitestore/store.go:143-190 | every session oldest first, each with exactly its own commands by ascending identifier |
| Store.SessionStore.PruneAndLoad | go/adapters/sqlitestore/store.go:226-250 | prune, then load |
| Store.SortedIsSorted | go/adapters/sqlitestore/store.go:144 | the order is ascending by start time and, within it, by identifier, and keeps exactly the rows |
| Store.SaveKeepsSound | go/adapters/sqlitestore/store.go:60-95 | a save keeps session identifiers distinct and command identifiers ascending, every command with its session, every count right |
| Store.PruneKeepsSound | go/adapters/sqlitestore/store.go:118-140 | so does a prune: no command is orphaned |
| Store.PruneKeepsNewest | go/adapters/sqlitestore/store.go:118-140 | a prune keeps exactly the newest sessions |
| Store.PruneLeaves | go/adapters/sqlitestore/store.go:118-131 | keeping zero or fewer, or as many as there are, deletes nothing; otherwise just as many are left |
| Store.CommandsById | go/adapters/sqlitestore/store.go:169-170 | on a table whose identifiers ascend, which saves and prunes keep, table order is the order by identifier |
| Store.DeletesTakeTheSameOldest | go/adapters/sqlitestore/store.go:132-138 | a session stays exactly when its commands do, and whatever is deleted started before whatever stays, or at the same time with a smaller identifier |
| Store.PruneAndLoadYieldsNewest | go/adapters/sqlitestore/store.go:118-250 | after any history that never kept fewer, pruning to k > 0 loads exactly the newest k sessions ever saved, oldest first and as saved |
| Store.NewestAreLoaded | go/adapters/sqlitestore/store.go:118-250 | in terms of the saves alone: k of them are loaded, or all if there are fewer, by start time and then by order of saving, and every other save started earlier than each of these, or at the same time and was saved before |
| Store.LoadedWereSaved | go/adapters/sqlitestore/store.go:60-190 | after any saves and any prunes the loaded sessions are saves as they were made, by start time and then by order of saving |
| Pipeline.TrainingSeesOnlyAuthorisedSessions | go/cmd/ssentry/main.go:216-224 | over every history of logins and trainings, whatever number each training keeps, each session a training run loads is a persisted login's, and its hard lines had been passed |
| Pipeline.SavedIffPersisted | go/cmd/ssentry/main.go:216-224 | a session is saved if and only if it is the record of a login that stayed valid and recorded commands |
| Pipeline.NoModelReadsAsNormal | python/model_cache.py:18 | the score of a user without a model is judged normal exactly when both thresholds lie below it |
| Pipeline.TrainedCommandsAreNotNovel | go/cmd/ssentry/repl.go:192-202 | a command in the training set is never escalated by novelty in a later session from the same country |
| Pipeline.LoginsTrainAsScored | go/cmd/ssentry/train.go:181-196 | every recorded command of every login is trained on exactly as it was scored |
| TabCompletion.LongestCommonPrefix | go/cmd/ssentry/linereader.go:267-281 | terminates with the greatest common prefix |
| TabCompletion.GreatestIffCommon | go/cmd/ssentry/linereader.go:267-281 | there is exactly one greatest common prefix, the fold of pairwise prefixes |
| TabCompletion.CompleteFirstWord | go/cmd/ssentry/linereader.go:149-176 | when it changes nothing, and that what was typed and what follows the cursor are kept |
| TabCompletion.CompletionKeepsMatches | go/cmd/ssentry/linereader.go:149-176 | completing keeps exactly the same candidates matching |
| TabCompletion.AmbiguousCompletionIsFixpoint | go/cmd/ssentry/linereader.go:167-175 | completing an ambiguous word again changes nothing |
| TabCompletion.CompletePath | go/cmd/ssentry/linereader.go:186-245 | when it changes nothing, and what it replaces otherwise |
| TabCompletion.OffersIff | go/cmd/ssentry/linereader.go:208-222 | an entry is offered exactly when it starts with what was typed and is no dotfile unless a dot was typed; directories with a slash |
| TabCompletion.TokensAreLookedUp | go/cmd/ssentry/linereader.go:186-265 | `~/` is looked up in the home, `/` from the root, anything else in the working directory |
| TabCompletion.AmbiguousPathIsFixpoint | go/cmd/ssentry/linereader.go:186-245 | after an ambiguous path completion the cursor is in its token exactly when the offers share no space, and completing again changes nothing exactly when they share none or what follows the last shared space cannot be completed in the working directory; and when the same names are offered again |
| TabCompletion.RepeatedCompletionGrows | go/cmd/ssentry/linereader.go:186-245 | two names for which every further completion lengthens the line |

## Left out

- The pseudo-terminal, raw mode, window size, keystroke proxying and polling: `input` is the bytes read
  before the next read error, and a deadline is an arbitrary answer at each byte.
- Bytes are characters, and text is a sequence of characters: conversions between invalid UTF-8 and runes
  are not modelled.
- The contents of the model, percentiles, HMAC and pickle: a signature check and the usability of bytes are
  arbitrary predicates, scores and time features arbitrary reals. NaN and infinite scores do not occur,
  except that a missing score reads as infinitely high.
- The check that a user's directory stays under the root, and the syntax of user names: easy.
- Sockets, JSON, configuration, GeoIP and alert delivery: the world answers arbitrarily and alerts are
  entries of a log. The log also notes, as observations the code does not send, each settled severity,
  each validation and each run, and the line of a passed challenge.
- The prompt and its call of `Cwd` before each line: a failure there changes nothing in the session.
- Read errors other than the end of input in the command loop.
- The OTP vault, otpd and the code arithmetic: `Validate` answers arbitrarily.
- `trainSession` and the trainer's `main` are steps of a protocol rather than one method, because logins,
  requests and crashes fall between their writes; their gates (too few sessions, no rows) only skip a run.
- Artifact files that are present but unparseable or unreadable: the writers replace files as a whole.
- The shell: it is the printf of the injected format, with the escapes and the conversion that occur there,
  and whatever bytes its commands put out.
- SQLite itself: a transaction is one step, identifiers grow and are not reused; its errors roll back.
- The sorted, duplicate-free candidate list of command names, and the line editor that calls completion.
- That a usable model file is never removed while the trainer writes, and that access times only grow: the
  code acts on an unlocked read and on a clock read before the lock, so neither holds.
