# Dockstack: a verified model

Dockstack manages Docker Compose stacks from a Go server with a web client. This project models the parts of it that
carry state, concurrency or parsing, and proves what they promise over every input, every run and every schedule.

| file | what it models |
|---|---|
| `Sse.dfy` | the frames of a streamed command and the client's incremental parser (server-sent events, sections 9.2.5 and 9.2.6 of the HTML Living Standard; the client implements a subset) |
| `StreamCompose.dfy` | one streamed command: the child process and its two pipes, and the goroutines that read them, two emitters, a waiter and a ticker on one unbuffered channel |
| `StackActionStream.dfy` | the handler that frames the lines of a list of commands, and the pipeline from command to client |
| `BruteLimiter.dfy`, `IdealLimiter.dfy` | the sliding-window limiter with its lockouts and bounded table, and the unbounded limiter it refines |
| `SignInGuard.dfy` | the guards built on it, with requests in flight between check and record |
| `ApiKeyRateLimit.dfy` | the limit of API keys, one conditional `UPDATE` |
| `NetworkModes.dfy` | the rewrite of `network_mode: service:x` in a compose file |
| `DigestCache.dfy` | the cache of registry digests with its time to live and concurrent invalidation |
| `OAuthLink.dfy` | linking identity-provider accounts to users, statement by statement |
| `Migrations.dfy`, `Decimal.dfy` | schema migrations that may stop at any statement and are started again |
| `BoundedWorkers.dfy` | parallel checks bounded by a semaphore |
| `ExpiringRows.dfy`, `AuthTables.dfy` | challenges and reset tokens, their expiry and the background cleanup |
| `PasswordReset.dfy` | resetting a password with a token, statement by statement |
| `StackViews.dfy` | update status per stack, containers merged with missing services, drift |
| `PasswordRecord.dfy`, `UnpaddedBase64.dfy` | the stored form of a password as printer and parser, and its base64 fields |
| `Text.dfy`, `Common.dfy` | what several files share: splitting and joining strings, their order, sorting |

How it is modelled:

* Concurrency is a transition system: a state, steps with a guard each, and runs as sequences of steps. A step is what
  the program does atomically: one channel operation, one critical section, one SQL statement. Every theorem about runs
  holds for every interleaving.
* Code that changes things in place is a class or a method with a loop, proved against a function; the theorems are
  about the function. Where calls can interleave, the method that makes one call alone is tied to the run of its steps.
* Time is an integer that never decreases. Where the program reads the clock before taking a lock, the readings are
  taken to be in the order of the locks. A limiter's times are nanoseconds after the zero time, so positive.
* What the daemon, the registry, the operating system, the key derivation and the random generators answer are
  parameters.

What the code does differently from what is said of it:

* The documentation promises 100 requests per minute for an API key (`wiki/content/docs/dockstack/features/webhooks.mdx`,
  line 53). The statement counts the current chain of admitted requests, each at most a window after the one before, so
  a client that stays well below the rate is denied in the end. `SteadyClientDenied` gives such a run for every maximum
  of at least two (`DefaultKeyDenied` for the defaults), `AgreesWithDocumentationIff` says exactly when code and
  documentation agree, and what does hold (never more than the maximum in a window) is `WindowBound`.
* A streamed command need not end, even for a client that keeps reading. When a scanner gives up, on a line over 1 MiB,
  no one reads its pipe any more, and the child blocks once the pipe is full. `CanFinishIff`: the command can finish,
  from every reachable state, if and only if what the failed scanners leave unread fits into their pipes.
  `OverfullHangs` and `LongLineFinishesIff` show the other case.
* Error texts are not escaped when they are framed, unlike output lines. `RawFrameArrivesIff`: such a text arrives as
  one line if and only if it has no newline.
* A client that leaves ends the goroutines of a command only if nothing but heartbeats is pending and the child can
  exit: `EndsAfterLeaveIff`. `EarlyLeaveLeaks` is the schedule in which they never end.
* An invalidation of the digest cache holds only if no call is between the registry's answer and its store:
  `InvalidationDiscardsIff`. `InvalidationMissesHeldDigest` is a run in which one is.
* A user inserted for a first sign-in through a provider may stay without a link: after a race
  (`RaceLeavesUnlinkedUser`) or a failing statement (`FailedReloadLeavesUnlinkedUser`). `InsertedUserLinkedIff` is the
  exact condition, and `LinkRefusedIffOvertaken` the one for the insert of the link alone.
* A run of the migrations that reports success may not have executed every script: two with one version make the first
  run fail and the next succeed without the second script (`SharedVersionIsSkipped`). `SuccessExecutesAllIff` is the
  exact condition, which can be checked before the run; `FirstRunSucceedsIff` says when a first run succeeds at all.
* A reset token can reset a password twice: two overlapping requests both succeed (`OverlappingResetsBothSucceed`), and
  so does a later one if the delete of the used token failed unnoticed. `ResetWorksIff` is the exact condition.

## Model

| member | source | states |
|---|---|---|
| Sse.SseReader.Feed | web/src/lib/api/sse.ts:18-27 | one read of the client: the lines it yields and the buffer it keeps are those of parsing the old buffer followed by the chunk |
| Sse.Receive | web/src/lib/api/sse.ts:13-28 | however the text is cut into chunks, the lines yielded are those of parsing it in one piece |
| Sse.ParseIncremental | web/src/lib/api/sse.ts:18-27 | parsing a text is parsing any prefix, then what was left of it with the rest |
| Sse.DataLinesOf | web/src/lib/api/sse.ts:23-26 | a line of a frame yields what follows `data: ` if it starts so, and nothing otherwise |
| Sse.TruncationYieldsPrefix | web/src/lib/api/sse.ts:15-27 | a stream that breaks off anywhere yields a prefix of its lines |
| Sse.EscapeOneLine | internal/server/api/stacks.go:412 | an escaped line has no newline, and a line without one is left alone |
| Sse.EscapeNewline | internal/server/api/stacks.go:412 | escaping turns each newline into a backslash and an `n` and goes on behind it |
| Sse.ParseFrames | internal/server/api/stacks.go:411-417 | frames of one-line texts are parsed back to those texts with nothing left over |
| Sse.RoundTrip | web/src/lib/api/sse.ts:13-28 | every list of output lines, escaped and framed, arrives complete and in order under every chunking |
| Sse.RawFrameArrivesIff | internal/server/api/stacks.go:419 | an unescaped error text arrives as one line exactly when it has no newline; otherwise the client sees it cut at the first one |
| Sse.VisibleEscapeAll | web/src/components/stacks/action-dialog.tsx:62 | dropping heartbeats and escaping lines commute: no line becomes or stops being a heartbeat by being escaped |
| StreamCompose.InvStep | internal/docker/stacks.go:171-213 | every step of every goroutine keeps the invariant of the protocol |
| StreamCompose.ReachableInv | internal/docker/stacks.go:171-213 | every state of every schedule satisfies the invariant |
| StreamCompose.CommandLineText | internal/docker/stacks.go:174 | the first line is `$ ` and the arguments with a space between each two |
| StreamCompose.NeverPanicsNorBlocks | internal/docker/stacks.go:174-208 | in no schedule is anything sent on, or closed, after `out` is closed, the wait group never goes negative, and the single send on `waitErr` never blocks |
| StreamCompose.WorkDecreases | internal/docker/stacks.go:179-212 | every step but a heartbeat decreases a measure, and heartbeats leave it as it is |
| StreamCompose.RunsAreBounded | internal/docker/stacks.go:171-213 | a bound, linear in lines and bytes, on the steps other than heartbeats of any schedule |
| StreamCompose.NeverStuck | internal/docker/stacks.go:171-213 | while the consumer keeps receiving and what a failed scanner leaves unread fits into its pipe, some step that is not a heartbeat is possible until child and goroutines have ended |
| StreamCompose.CanFinish | internal/docker/stacks.go:218-226 | a consumer that keeps receiving can then bring the command to its end from every reachable state |
| StreamCompose.CanFinishIff | internal/docker/stacks.go:179-197 | the command can finish from a reachable state if and only if no failed scanner leaves more unread than its pipe holds |
| StreamCompose.OverfullHangs | internal/docker/stacks.go:181-188 | otherwise some schedule ends in a state where the consumer receives heartbeats for ever |
| StreamCompose.LongLineFinishesIff | internal/docker/stacks.go:182 | a command that prints one overlong line finishes exactly if the rest of it fits into the pipe |
| StreamCompose.DrainedIsInterleaving | internal/docker/stacks.go:174-197 | what a consumer drains is the command line, then, without heartbeats, a complete order-preserving interleaving of the two pipes; the exit status it takes is the one the waiter reported |
| StreamCompose.EveryInterleavingHappens | internal/docker/stacks.go:171-213 | the converse, for a command that can finish: every interleaving and every exit status is the outcome of some schedule with a child that writes the same bytes to the same pipes |
| StreamCompose.LeakForever | internal/docker/stacks.go:179-189 | once the consumer has left with a line pending, the goroutines never all end |
| StreamCompose.EarlyLeaveLeaks | internal/server/api/stacks.go:411-415 | it happens: if the first write to the client fails and the command prints anything, its goroutines never all end |
| StreamCompose.EndsAfterLeaveIff | internal/docker/stacks.go:171-213 | after the consumer has left, the goroutines can still end if and only if no line is pending and the child is able to exit |
| StackActionStream.WriteLines | internal/server/api/stacks.go:411-417 | the loop over one command's lines appends their frames, or stops at the first failed write |
| StackActionStream.HandleStackActionStream | internal/server/api/stacks.go:379-429 | exact status, body, kind of answer and number of invalidations in every case: bad name, no flusher, a command that does not start or fails, a client write that fails; when all commands succeeded and all writes did, an action of the table invalidates the digests, once, if and only if one of its commands begins with `pull`, and nothing else invalidates them |
| StackActionStream.TableInvalidates | internal/server/api/stacks.go:33-49 | the actions of the table named `pull` or `update` are those with a command that pulls; `up`, `stop`, `down` and `restart` have none |
| StackActionStream.CommandShows | internal/docker/stacks.go:149-216 | one command that was started shows its command line and an interleaving of its output, whatever the schedule: of all of it once it has ended, of what its pipes have given so far before |
| StackActionStream.ReceivedMerges | internal/docker/stacks.go:171-213 | in every reachable state what was received is the command line and a merge of beginnings of the two outputs |
| StackActionStream.PlanShows | internal/server/api/stacks.go:391-425 | a list of commands shows their outputs in order up to and including the first that fails, with its error line, or the first that has not ended |
| StackActionStream.HandlerWritesPlan | internal/server/api/stacks.go:391-425 | once every command has ended, the events so described are those that the handler writes |
| StackActionStream.EndToEnd | internal/server/api/stacks.go:391-428 | from goroutines to client: under every schedule, however far it has got, and every chunking the lines shown are a prefix of that, and all of it if the text arrives whole |
| StackActionStream.BrokenIsPrefix | internal/server/api/stacks.go:413-415 | a body whose write failed is a prefix of the full text, so the end-to-end statement covers it |
| StackActionStream.BrokenIgnoresTheRest | internal/server/api/stacks.go:413-415 | a failed write ends the handler: lines that a command would have printed later make no difference to the body |
| BruteLimiter.SignInAttempts.Prune | internal/server/api/auth/ratelimit.go:100-110 | the in-place compaction keeps exactly the failures after the cutoff, in order |
| BruteLimiter.SignInAttempts.Note | internal/server/api/auth/ratelimit.go:81-87 | prune, append and lock: the new entry and the lockout returned |
| BruteLimiter.Limiter.Blocked | internal/server/api/auth/ratelimit.go:53-64 | the remaining lockout, 0 for an unknown key |
| BruteLimiter.Limiter.Sweep | internal/server/api/auth/ratelimit.go:112-120 | removes exactly the entries whose lock and last failure are over |
| BruteLimiter.Limiter.Fail | internal/server/api/auth/ratelimit.go:66-88 | the whole new table and answer: sweep when full, drop the failure if it is still full, else record |
| BruteLimiter.Limiter.Reset | internal/server/api/auth/ratelimit.go:90-94 | removes one key and nothing else |
| BruteLimiter.Limiter.Hit | internal/server/api/auth/ratelimit.go:96-98 | a counted request is recorded like a failure |
| IdealLimiter.LockEndMeans | internal/server/api/auth/ratelimit.go:83-86 | the unbounded limiter blocks a key exactly when some failure of its history filled the window and its lockout has not ended |
| IdealLimiter.RecordAgrees | internal/server/api/auth/ratelimit.go:81-87 | recording a failure keeps a pruned entry in agreement with the whole history, with the same verdict |
| IdealLimiter.StepAgrees | internal/server/api/auth/ratelimit.go:53-94 | one call of fail, blocked or reset gives the unbounded limiter's answer and keeps the agreement |
| IdealLimiter.RunAgrees | internal/server/api/auth/ratelimit.go:53-120 | over every run at non-decreasing times all answers are those of the unbounded limiter that skips the failures dropped for lack of room |
| IdealLimiter.RefinesUnbounded | internal/server/api/auth/ratelimit.go:53-120 | if none was dropped, the limiter is observably the unbounded one: pruning and sweeping cannot be seen |
| IdealLimiter.UnblockedHasFew | internal/server/api/auth/ratelimit.go:66-88 | if lockouts last at least a window, a key that is not blocked has fewer than max failures in the window |
| IdealLimiter.StepBounded | internal/server/api/auth/ratelimit.go:70-80 | one call keeps the table within 100 entries |
| IdealLimiter.NeverOutgrown | internal/server/api/auth/ratelimit.go:66-94 | whatever calls a new limiter gets, its table never exceeds 100 entries |
| IdealLimiter.UnrecordedOnlyWhenFull | internal/server/api/auth/ratelimit.go:70-77 | a failure is dropped only while at least 100 other keys have a live lock or a recent failure |
| SignInGuard.Guard.Check | internal/server/api/auth/ratelimit.go:135-144 | the wait of the first of the two limiters that blocks |
| SignInGuard.Guard.RecordFailure | internal/server/api/auth/ratelimit.go:146-152 | both limiters record, each under its own key |
| SignInGuard.Guard.Clear | internal/server/api/auth/ratelimit.go:154-158 | both limiters forget the keys |
| SignInGuard.Guard.SignInWithPassword | internal/server/api/auth/auth.go:122-156 | status and both tables for every outcome of lookup, verification and session: only a 401 records, and a correct password clears even if no session can be created |
| SignInGuard.Limit | internal/server/api/auth/ratelimit.go:202-209 | a request that is not blocked is counted, a blocked one is not |
| SignInGuard.TallyStep | internal/server/api/auth/auth.go:126-150 | what each step keeps: the failures counted so far are the last ones of the key's entry, and once they are max the key is locked beyond the interval and those in flight stay within the bound |
| SignInGuard.InFlightBound | internal/server/api/auth/auth.go:126-150 | with at most c sign-ins in flight and no success in between, an interval shorter than the window records at most max + c - 1 failures of the key, whatever other keys do |
| SignInGuard.SignInBound | internal/server/api/auth/ratelimit.go:17-23 | the same for the actual limits: fifteen minutes, five failures per identifier, ten per address |
| SignInGuard.RequestBound | internal/server/api/auth/ratelimit.go:202-209 | sequential requests: in any half-open interval of one window at most the maximum is recorded |
| SignInGuard.TrackedIsRecorded | internal/server/api/auth/ratelimit.go:70-82 | a failure of a key that the table has, or has room for, is never dropped |
| SignInGuard.AdmittedBound | internal/server/api/auth/ratelimit.go:202-209 | sequential requests of a tracked key: any half-open interval of one window admits at most the maximum |
| SignInGuard.InFlightBoundReached | internal/server/api/auth/auth.go:126-150 | the bound is tight for every c |
| ApiKeyRateLimit.RateLimitMax | internal/auth/apikeys.go:26-31 | a configured maximum is used only if positive, else 100 |
| ApiKeyRateLimit.RateLimitWindow | internal/auth/apikeys.go:33-38 | a configured window is used only if positive, else a minute |
| ApiKeyRateLimit.ApiKeys.RateLimit | internal/auth/apikeys.go:122-135 | the statement as one atomic step: when it admits, what it writes, and that a denial writes nothing |
| ApiKeyRateLimit.RowIsChain | internal/db/store/api_keys.sql.go:118-129 | after any run the row holds the length of the current chain of admitted requests and its last time |
| ApiKeyRateLimit.ChainsAreShort | internal/db/store/api_keys.sql.go:118-129 | no chain of admitted requests is longer than the maximum |
| ApiKeyRateLimit.WindowBound | internal/db/store/api_keys.sql.go:118-129 | a closed interval of at most a window contains at most max admitted requests |
| ApiKeyRateLimit.DenialsDoNotDelay | internal/db/store/api_keys.sql.go:118-129 | denied requests change nothing, and more than a window after the last admitted one a request is admitted |
| ApiKeyRateLimit.SteadyClientDenied | internal/db/store/api_keys.sql.go:118-129 | for every maximum of at least two: of requests one window apart the code denies the one after the maximum, where the documented rate would admit it |
| ApiKeyRateLimit.DefaultKeyDenied | internal/db/migrations/0001_init.sql:42-43 | the same for the defaults that every key has |
| ApiKeyRateLimit.AgreesWithDocumentationIff | wiki/content/docs/dockstack/features/webhooks.mdx:53 | the code never admits more than documented, and agrees exactly unless the chain is full, still open and began before the window |
| NetworkModes.MatchSound | internal/docker/drift.go:19 | what the matcher finds is a directive of the expression's language that ends where a line ends |
| NetworkModes.MatchComplete | internal/docker/drift.go:19 | every directive that ends where a line ends is found, with its groups |
| NetworkModes.DirectiveSpelled | internal/docker/drift.go:19 | a directive is exactly a text of the shape that the expression spells out, literal by literal and class by class |
| NetworkModes.SubmatchSame | internal/docker/drift.go:32 | matching the matched text alone gives the same groups |
| NetworkModes.ReplaceFunc | internal/docker/drift.go:31-39 | the replacement of one match |
| NetworkModes.ResolveServiceNetworkModes | internal/docker/drift.go:23-41 | the text is cut into directives and other characters; in the result each directive is its first group, `container:` and the identifier of the last container of its service, or is left as it was if the service has none, and so is every other character; the flag is set if and only if the text changed |
| NetworkModes.OnlyDirectivesChange | internal/docker/drift.go:31-39 | the rewriting, from any position, is that cut put together again from its replaced pieces |
| NetworkModes.ResolvesIffChanged | internal/docker/drift.go:30-40 | the flag is true exactly when output and input differ |
| NetworkModes.NewlinesKept | internal/docker/drift.go:19-40 | the number of newlines stays although a match may span lines, if container identifiers have none |
| NetworkModes.RewriteIdempotent | internal/docker/drift.go:23-41 | rewriting twice with the same containers is rewriting once |
| DigestCache.InvAlways | internal/docker/client.go:89-115 | what every interleaving keeps: where entries, found entries, held digests and answers come from |
| DigestCache.EntriesAreFetched | internal/docker/client.go:97-107 | an entry holds a digest that one call fetched for that very tag and stored at the entry's time |
| DigestCache.HitsAreFresh | internal/docker/client.go:90-95 | a call that found an entry less than the time to live old serves it, a digest fetched and stored in the run; it asks the registry exactly if it found none or the one it found is older |
| DigestCache.UnstoredCallLeavesNoTrace | internal/docker/client.go:93-100 | a call that finds a live entry or whose request fails can be cut out of the run without changing the map or any other call |
| DigestCache.CachedEqualsDirect | internal/docker/client.go:89-109 | while the registry's digests are constant, an answer is the registry's, and none is given only if the call's own request failed |
| DigestCache.InvalidationDiscardsIff | internal/docker/client.go:111-115 | after an invalidation the map only ever holds digests that arrived later, if and only if no call held one unstored |
| DigestCache.InvalidationMissesHeldDigest | internal/docker/client.go:97-115 | it happens: a call on an empty cache has its answer when the invalidation comes, and can store it afterwards |
| DigestCache.AnswersAfterInvalidation | internal/docker/client.go:111-115 | calls begun after such an invalidation are answered with digests that arrived after it |
| DigestCache.Client.Store | internal/docker/client.go:102-107 | stores one entry, into a new map if there is none |
| DigestCache.Client.InvalidateRemoteDigests | internal/docker/client.go:111-115 | leaves nothing cached |
| DigestCache.Client.RemoteDigestCached | internal/docker/client.go:89-109 | an undisturbed call leaves the map and gives the answer of the run of its steps; no answer means an unchanged map |
| OAuthLink.InvStep | internal/server/api/auth/oauth.go:178-197 | every statement keeps addresses unique, links pointing to existing users and links where they are; no user or link goes away |
| OAuthLink.InvAlways | internal/server/api/auth/oauth.go:178-197 | the same over every interleaving with e-mail changes, inserts and failing statements |
| OAuthLink.SameAccountSameUser | internal/db/migrations/0001_init.sql:71-79 | two successful sign-ins with one provider and subject give the same existing user, whatever addresses they carry |
| OAuthLink.LinkedCallAddsNothing | internal/server/api/auth/oauth.go:179-181 | a call begun once the account is linked adds no rows and ends with the linked user, unless one of its statements fails |
| OAuthLink.LinkRefusedIffOvertaken | internal/server/api/auth/oauth.go:193-195 | a call that found no link is refused its own exactly when another call inserted it in the meantime |
| OAuthLink.InsertedUserLinkedIff | internal/server/api/auth/oauth.go:183-196 | once a call that inserted a user has finished, its account is linked to that user exactly if its reload and its insert of the link worked and no other call inserted the account's link, or another call linked the account to that very user |
| OAuthLink.FailedReloadLeavesUnlinkedUser | internal/auth/oauth.go:46-61 | an undisturbed call whose reload fails leaves the user it inserted unlinked |
| OAuthLink.RaceLeavesUnlinkedUser | internal/server/api/auth/oauth.go:183-195 | two racing first sign-ins with different addresses leave a user without a link |
| OAuthLink.FirstSignInLinks | internal/server/api/auth/oauth.go:183-196 | an undisturbed first sign-in links the user with the address if there is one, else a new user with it, and changes nothing besides |
| OAuthLink.SoloIsRun | internal/server/api/auth/oauth.go:178-197 | a call with nothing in between is a run, so all of the above holds of it |
| OAuthLink.Store.FindOrLinkOAuthUser | internal/server/api/auth/oauth.go:178-197 | tables and result of an undisturbed call, for every choice of failing statements |
| Migrations.ParsesPrefix | internal/db/db.go:111-118 | a name of digits, underscore and anything has the number as its version, negative after a minus sign; so has one of digits and `.sql` alone |
| Migrations.NoNumberNoVersion | internal/db/db.go:111-118 | a name whose part before the underscore is empty or has another character than digits after a sign has no version |
| Migrations.PaddedNamesSortByVersion | internal/db/db.go:77 | names padded to one width sort by version |
| Migrations.UnpaddedNamesSortOtherwise | internal/db/db.go:77 | unpadded names need not |
| Migrations.Database.Apply | internal/db/db.go:87-106 | script and record are published together or not at all, whichever statement fails |
| Migrations.Database.Migrate | internal/db/db.go:46-109 | the loop leaves the database and gives the outcome of the specified run |
| Migrations.RunKeepsSound | internal/db/db.go:46-109 | for every list and every failure: recorded versions are exactly those of the committed migrations, none is committed twice, nothing is undone, success means all are recorded |
| Migrations.RunExtendsPrefix | internal/db/db.go:80-108 | a restarted run on the same list extends the committed prefix of it; once past its first statements it succeeds exactly when the prefix is the whole list, which it is if nothing fails |
| Migrations.RestartsKeepPrefix | internal/db/db.go:46-109 | after any number of runs with any failures the database holds a prefix of the list, recorded as such |
| Migrations.FirstRunSucceedsIff | internal/db/db.go:80-108 | on an empty database a run without failures succeeds exactly when all names have versions and no two share one |
| Migrations.SuccessExecutesAllIff | internal/db/db.go:80-108 | a successful run has executed every script of the list, now or earlier, exactly when the listed scripts whose versions were recorded before had been executed |
| Migrations.SharedVersionIsSkipped | internal/db/db.go:84-86 | with a shared version the second run reports success although one script was never executed |
| BoundedWorkers.InvStep | internal/docker/drift.go:119-136 | every step of every schedule keeps the semaphore, the wait group and the stored results in step with the workers |
| BoundedWorkers.AtMostSlotsInProgress | internal/docker/drift.go:122-129 | in every schedule at most as many calls are in progress as there are slots |
| BoundedWorkers.ReturnedMeansFinished | internal/docker/stats.go:37-57 | the function returns only after every worker has finished, with exactly the successful, uncancelled results, each once |
| BoundedWorkers.NeverStuck | internal/docker/drift.go:123-136 | until the function returns, some goroutine can move |
| BoundedWorkers.SchedulesEnd | internal/docker/drift.go:119-136 | a schedule for n items has at most 6n + 1 steps, and one that cannot go on has returned |
| BoundedWorkers.DriftIndependentOfSchedule | internal/docker/drift.go:119-136 | the result is one entry per stack with its status, whatever the schedule |
| BoundedWorkers.StatsIndependentOfSchedule | internal/docker/stats.go:31-59 | two uncancelled schedules give the same list: the successes in ascending order of their distinct identifiers |
| ExpiringRows.VisibleMeansHistory | internal/db/store/reset_tokens.sql.go:33-35 | a lookup sees a row exactly when it was inserted, has not expired and has not been deleted since |
| ExpiringRows.CleanupUnobservable | internal/db/store/webauthn_challenges.sql.go:21-36 | cleanups, however often and whenever, change nothing a later lookup can see, given a clock that does not go back and fresh identifiers |
| ExpiringRows.ReusedIdShowsCleanup | internal/db/store/webauthn_challenges.sql.go:21-23 | with a reused identifier a cleanup can be seen |
| AuthTables.ResetTokens.CreateResetToken | internal/auth/oauth.go:12-20 | one insert, refused only by a clash of identifier or hash |
| AuthTables.ResetTokens.ActiveResetTokenUser | internal/auth/oauth.go:22-28 | gives the user a live, undeleted token with this hash was created for, and no one otherwise |
| AuthTables.ResetTokens.DeleteResetTokensByUser | internal/auth/oauth.go:30-32 | exactly the rows of the user go, one delete in the history |
| AuthTables.ResetTokens.DeleteExpiredResetTokens | internal/auth/oauth.go:34-36 | exactly the rows that expired before now go, one cleanup in the history, with their number |
| AuthTables.UsedTokenStaysDead | internal/server/api/auth/auth.go:430-432 | once its user's tokens are deleted no later lookup finds a token |
| PasswordReset.LookUpFindsIff | internal/server/api/auth/auth.go:418-425 | in every interleaving a lookup finds a token's user exactly until the token expires or a delete for the user succeeds |
| PasswordReset.ResetWorksIff | internal/server/api/auth/auth.go:414-434 | a call that presents a token, the first or a later one, sets its user's password exactly if the token has not expired and the lookup precedes every successful delete for the user since the token was issued, unless its own lookup or update fails |
| PasswordReset.OverlappingResetsBothSucceed | internal/server/api/auth/auth.go:414-434 | two overlapping calls with one token both succeed although every statement works |
| PasswordReset.AloneIsRun | internal/server/api/auth/auth.go:414-434 | a call with nothing in between is a run, so all of the above holds of it |
| PasswordReset.HandleForgotPassword | internal/server/api/auth/auth.go:383-407 | a token for an hour if the user exists, the same answer if not, and an error if lookup, generator or insert fails |
| PasswordReset.HandleResetPassword | internal/server/api/auth/auth.go:414-434 | tables and answer of an undisturbed call for every choice of failing statements: it changes the password of exactly the user whose token is active, and deletes that user's tokens if the delete works |
| AuthTables.Challenges.SaveChallenge | internal/auth/passkeys.go:201-221 | one insert that expires after five minutes, with no user for an empty one |
| AuthTables.Challenges.LoadChallenge | internal/auth/passkeys.go:223-240 | gives exactly the live, undeleted session of that identifier and kind, for that user if one is asked for and if it can be read back |
| AuthTables.Challenges.DeleteChallenge | internal/auth/passkeys.go:242-244 | exactly the row of the identifier goes, one delete in the history |
| AuthTables.Challenges.DeleteExpiredChallenges | internal/auth/passkeys.go:246-248 | exactly the rows that expired before now go, one cleanup in the history, with their number |
| StackViews.FirstValid | internal/docker/stacks.go:389-393 | the first valid tag of an image, or none if there is none |
| StackViews.ValidTags | internal/docker/stacks.go:363-380 | a tag is valid unless it is empty, the placeholder, an image identifier or a reference by digest |
| StackViews.ContainerImageTag | internal/docker/stacks.go:382-395 | the order of the sources: the container's own tag, the compose file's, the first valid one of the image; a tag given is valid, and none is given exactly when no source has a usable one |
| StackViews.StatusMeans | internal/docker/system.go:140-157 | a container is outdated if and only if its image is in the list, by the first twelve characters of its identifier, has digests and a usable tag, and the registry answers for that tag with a digest that none of them contains; it is up to date if and only if, all else equal, one of them contains it |
| StackViews.AggregateIsJoin | internal/docker/stacks.go:350-361 | the loop with its early return is the join: outdated above unknown above up to date |
| StackViews.ListStackUpdates | internal/docker/stacks.go:436-482 | with its memo tables, and whatever the registry answers for each container: a stack on disk appears if and only if a container belongs to it; it is outdated if and only if some container of it is, in the sense just given, up to date if and only if all of them are, and else unknown |
| StackViews.UpdatesIgnoreOrder | internal/docker/stacks.go:459-474 | the order of the containers makes no difference as long as the registry gives one answer per tag |
| StackViews.GetStackContainers | internal/docker/stacks.go:484-550 | an entry per container and one missing entry per service that no container names, nothing else and as many as that; a missing entry has the name `-` and the image of the compose file or `-`; no entry has a smaller service, or else container, name than one before it |
| StackViews.EveryServiceOnce | internal/docker/stacks.go:494-536 | every service of the compose file shows up, as containers or as missing, never as both |
| Text.LessMeans | internal/docker/stacks.go:538-547 | the order of names: the first difference decides, and a prefix comes first |
| StackViews.DriftFromContainers | internal/docker/drift.go:55-78 | outdated exactly if some comparable container differs, unknown exactly if none is comparable |
| UnpaddedBase64.Base64RoundTrip | internal/auth/password.go:29-30 | decoding inverts encoding on every byte string, and no encoding contains the field separator |
| UnpaddedBase64.EncodeSpells | internal/auth/password.go:29-30 | the letters of an encoding, looked up in the alphabet of RFC 4648, are the digits in base 64 of the number that the bytes are in base 256, filled up to whole letters |
| UnpaddedBase64.DecodeReads | internal/auth/password.go:57-64 | a text is decoded if and only if, line breaks aside, it consists of letters of the alphabet and does not end in a single one, and then to the bytes of the number it stands for |
| UnpaddedBase64.BreaksSkipped | internal/auth/password.go:57-64 | of the characters of a field exactly the line breaks are skipped |
| Text.SplitInvertsJoin | internal/auth/password.go:47 | splitting gives back the fields that were joined |
| Text.JoinInvertsSplit | internal/auth/password.go:47 | joining what a text was split into gives it back, and no field contains the separator |
| PasswordRecord.ParamsReadBack | internal/auth/password.go:51-56 | scanning the printed parameters gives them back, or fails if one is too large for 32 or 8 bits |
| PasswordRecord.RecordRoundTrip | internal/auth/password.go:27-31 | parsing a printed record recovers its parameters, salt and key, whatever they are |
| PasswordRecord.HashPasswordIs | internal/auth/password.go:20-32 | what is stored is literally `argon2id$v=19$m=65536,t=3,p=4$`, the salt, `$` and the key of 32 bytes derived with these costs |
| PasswordRecord.VerifyStored | internal/auth/password.go:46-67 | a text of this form with any salt and key is checked by deriving a key of the same length under that salt |
| PasswordRecord.VerifyReads | internal/auth/password.go:46-67 | the same for any costs, which panic if there is no pass or no thread, and any version |
| PasswordRecord.VerifyIff | internal/auth/password.go:46-67 | a text is refused if and only if it has not exactly five fields of which the first is `argon2id` and the last three can be read; else the verdict compares the derived key with the stored one |
| PasswordRecord.VerifyInvertsHash | internal/auth/password.go:46-67 | for every password and salt the same password verifies, and another one exactly when it derives the same key |

## Left out

- Docker, HTTP, the file system, YAML and JSON: their answers are inputs.
- Processes: a child writes a script of bytes and exits with any status. One that is killed, as the end of its request does, is one whose script stops there; a descendant that keeps a pipe open belongs to the child. The capacity of a pipe is what it holds of that child's writes; a kernel that fills it page by page holds less of many small ones.
- Line splitting of the pipes: a pipe is the list of lines the scanner gives, with the bytes it reads for each and an optional error at the end. A last line without a newline counts as complete when its bytes are read, where the scanner waits for the end of the pipe.
- Cryptography (argon2, SHA-256, WebAuthn, OpenID Connect): functions or answers that are parameters; hashed keys and token hashes are opaque strings.
- UTF-8 decoding in the client: the text is modelled as characters after decoding.
- `handleStackAction`, which runs the same commands without a body: its drain is `CanFinish` and `DrainedIsInterleaving`.
- `CheckImagesStale` writes its map without the mutex while workers run, so independence of the schedule is not claimed of it.
- `GetStackStatus`, getters, row scanning, formatting and percentages: nothing above depends on them.
- `parseServiceHashes`: the hashes are an input of the drift check.
- SignInGuard.InFlightBound: counts recorded failures; one that is dropped for lack of room is not counted, and `UnrecordedOnlyWhenFull` says when that happens.
- SignInGuard.RequestBound: counts recorded requests in the same way; `AdmittedBound` counts the admitted ones of a key that is tracked.
- NetworkModes.RewriteIdempotent: like `NewlinesKept`, for container identifiers without newlines, which Docker's are.
- PasswordReset.HandleForgotPassword: without the request limit before it, which is `SignInGuard.Limit`.
- OAuthLink.Store.FindOrLinkOAuthUser: columns other than identifier and e-mail address are not modelled.
- Migrations.Database.Migrate: the list of names is taken in sorted order; sorting itself is the library's, and failures before the first file are one choice.
- StackViews.GetStackContainers: of an entry's columns only those are kept that the merge and the order depend on; sorting is by insertion, where the library may order equal keys otherwise.
- PasswordRecord.VerifyPassword: before a number only blanks, tabs and carriage returns are skipped, where the library knows more kinds of white space.
