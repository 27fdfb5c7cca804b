# Mika: a verified model of the agent's core protocols

Mika is an agent platform. This project models, in Dafny, the parts of it whose correctness is not
visible from any one function, and proves what they promise over every run, every interleaving or every
input:

- **The database actor** (`Actor`, `ActorGuarantees`, `TaskFrames`). Callers clone a sender under a mutex
  and queue closures, at most 512 of them; one thread owns the database, runs them in order, survives
  their panics and answers each caller. The model is a step system over clients, queue, worker, senders,
  shutdowns and frames, for any database type and any closures. The inductive invariant gives
  linearisability, a clean shutdown, conservation of broadcast frames and termination of draining. The
  guarded task wrappers are then run on it.
- **The push judge** of the GitHub proxy addon (`PktFraming`, `PktLine`, `PushJudge`, `EgressFlow`,
  `Purge`, `LiveScopes`). A pkt-line reader, a static bound on every command, a registry of declared perimeters, the two
  request hooks that attach or strip the host credential, and the throttled purge of the registries.
- **The A2A task store** (`A2aTables`, `A2aStore`, `A2aGuarantees`, `A2aRender`). Tables changed in place by
  create, update, abandon, sweep and insert, with database errors anywhere; task-scoped history; the task
  that is built from them and the text rendered from it.
- **The architect-reply reader** (`Utf8`, `ReplyScan`, `ReplyReader`, `ReplyLexicon`). Line-by-line scans of
  a byte string proved equal to whole-text searches, and the ladder of tiers on top of them.
- **The lint's two line scanners** (`LintScanners`, `RustText`, `LintAgreement`), which must agree on one cut,
  and of which the second keeps a raw-string state that is held against how Rust reads the text.
- **Compaction and its hand-off** (`Compaction`, `CompactionClock`, `CompactionRaces`, `Handsoff`,
  `HandsoffRuns`). What a compaction keeps and loses, under any wall clock and when several overlap; when
  its ceremony is due; and how depositions are served over whole runs of turns.

Where a promise turned out not to hold of the code, the code was kept, a lemma states exactly when it
holds and another shows an input where it fails:

- one frame for one changed row: `TaskFrames.FrameStandsForRows`, `CascadeWithoutFrame`, `CancelWithoutFrame`
- a manual cancellation announces a transition: `TaskFrames.ManualFrameExactly`, `ManualFrameWithoutChange`
- no frame is sent twice: `TaskFrames.SecondFrameExactly`, `RecurringClaimsTwice`
- the pre-fetch of a status update is right: `TaskFrames.ReadThenWriteIsExact`, `ReadThenWriteIsSpurious`, `ReadThenWriteIsSilent`
- a failed create leaves nothing behind: `A2aGuarantees.FailedCreate`, `CreateLeavesAnOrphan`
- the store lands on the state it is told: `A2aGuarantees.StoreLandsExactly`, whose second clause gives the state for every other
- a declaration and a URL meet: `EgressFlow.NormalFormsMeet`, `UpperCaseSuffixDoesNotMeet`
- the lint reports the first item of code after the cut: `LintAgreement.StatesAgreeExactly`, `ReportsFirstItemExactly`, `ItemOpeningARawStringIsMissed`, `ItemInsideARawStringIsReported`, `ItemAfterAStringIsMissed`
- what is deleted was summarised: `CompactionClock.NothingUnsummarisedExactly`, `OversizedIsDeletedUnseen`, `DisplacedIsDeletedUnseen`
- the newest twenty survive: `CompactionClock.WindowSurvivesExactly`, `SkewedLosesTheWindow`, `SkewedLosesEverything`
- overlapping compactions forget nothing: `CompactionRaces.NeverForgetsExactly`, `NeverForgetsOnSchedule`, `SlowLandingForgets`
- the ceremony precedes the compaction: `Handsoff.CeremonyComesFirstExactly`, `HandsoffRuns.CompactedWithoutCeremony`
- a deposition is served to a successor: `HandsoffRuns.ServesAtAllExactly`, `ServesInlineExactly`, `EverySettingCanServe`, `ServesInlineUnderAnyClockExactly`, which give the thresholds on both sides

`dafny verify dfyconfig.toml` checks the whole project.

## Model

| member | source | states |
|---|---|---|
| `Actor.InvHolds` | crates/mika-agent/src/async_db.rs:54-173 | the inductive invariant (first in first out, slots, answers, closings, handles, broadcasts) holds in every state of every interleaving of callers, sends, worker steps, panics, drops, shutdowns and channel attachments |
| `Actor.InvStep` | crates/mika-agent/src/async_db.rs:54-173 | each single step keeps that invariant |
| `ActorGuarantees.RunExtends` | crates/mika-agent/src/async_db.rs:58-85 | along any run histories only grow, finished calls keep their answer and a closed gate stays closed |
| `ActorGuarantees.Linearisable` | crates/mika-agent/src/async_db.rs:54-85 | the database is the fold of the executed closures in acceptance order, every returned answer is its own closure's at its place (none exactly when it panicked), each call occurs once, and a call that returned before another began precedes it |
| `ActorGuarantees.ReturnedBeforeBegun` | crates/mika-agent/src/async_db.rs:150-173 | the real-time half of linearisability between any two related states |
| `ActorGuarantees.ShutdownIsClean` | crates/mika-agent/src/async_db.rs:135-148 | at most 512 queued; every accepted closure is executed, in hand or queued; no send finds the receiver gone; calls begun after the sender is cleared are refused; when any of several racing shutdowns has returned, the worker has stopped and nothing is queued |
| `ActorGuarantees.RefusedExactly` | crates/mika-agent/src/async_db.rs:150-173 | in every run a call is refused exactly when a shutdown has begun before it, and any other gets a sender |
| `ActorGuarantees.FramesConserved` | crates/mika-agent/src/async_db.rs:95-113 | the replies that ask for a frame are the disjoint union of those broadcast, broadcast into no channel, still owed by a caller and lost with a dropped caller; every frame on the channel has such a reply behind it |
| `ActorGuarantees.BroadcastExactly` | crates/mika-agent/src/async_db.rs:108-113 | in every run a call that finishes owing a frame puts exactly that frame on the channel if a channel was attached before, goes unheard if none was, and no other step broadcasts anything |
| `ActorGuarantees.AttachedExactly` | crates/mika-agent/src/async_db.rs:95-113 | a channel is there exactly when an attach came before |
| `ActorGuarantees.DrainingTerminates` | crates/mika-agent/src/async_db.rs:58-76 | once the master sender is gone every working step uses up some of a finite measure and no other step adds to it |
| `ActorGuarantees.DrainingIsBounded` | crates/mika-agent/src/async_db.rs:58-76 | from there on a run has room for at most that many working steps |
| `ActorGuarantees.DrainingIsLive` | crates/mika-agent/src/async_db.rs:58-76 | as long as the thread lives, some working step is enabled: draining cannot deadlock |
| `ActorGuarantees.ServiceIsLive` | crates/mika-agent/src/async_db.rs:58-173 | before any shutdown too, whenever a caller has a sender some working step is enabled |
| `ActorGuarantees.DbThread.Serve` | crates/mika-agent/src/async_db.rs:58-76 | the worker loop, on the closures it receives, leaves the database the fold describes and the answers of each closure at its place, panicking ones included |
| `TaskFrames.FrameStandsForRows` | crates/mika-agent/src/db/tasks.rs:764-928 | with any statement failing: which rows a guarded write changes; it broadcasts exactly when it changed a status and its cascade did not fail; there are as many frames as changed rows exactly when no cascade failed after its cancel and none took children along |
| `TaskFrames.ClaimExactly` | crates/mika-agent/src/db/tasks.rs:764-773 | a pending or waiting recurring row of the agent ends in progress and is announced as claimed; in every other case nothing changes and nothing is sent |
| `TaskFrames.CompleteExactly` | crates/mika-agent/src/db/tasks.rs:775-788 | a pending or running row of the agent ends completed and is announced as completed; else nothing |
| `TaskFrames.FailExactly` | crates/mika-agent/src/db/tasks.rs:790-800 | a live row of the agent, blocked and recurring ones included, ends failed and is announced as failed; else nothing |
| `TaskFrames.PromoteExactly` | crates/mika-agent/src/db/tasks.rs:844-853 | a failed row of the agent, and no other, ends completed and is announced as completed |
| `TaskFrames.CancelExactly` | crates/mika-agent/src/db/tasks.rs:906-928 | a live row of the agent ends cancelled, its live callback children with it and no other row, and one frame is sent; else nothing |
| `TaskFrames.DeliverExactly` | crates/mika-agent/src/db/tasks.rs:1935-1942 | a completed or failed row of any agent ends delivered and is announced so; else nothing |
| `TaskFrames.ManualExactly` | crates/mika-agent/src/db/tasks.rs:931-961 | a manual row of the agent takes any status, and only cancelled is announced; else nothing |
| `TaskFrames.FaultsExactly` | crates/mika-agent/src/db/tasks.rs:906-928 | a first statement that fails changes nothing; a cascade that fails leaves the parent cancelled and nothing else; nothing is sent |
| `TaskFrames.TransitionsConserved` | crates/mika-agent/src/async_db.rs:485-718 | in every reachable state of every run a guarded call has changed its row exactly when its frame is on the channel, went into none, is owed or was lost with its caller, or when it is a cancel whose cascade failed; never both |
| `TaskFrames.CascadeWithoutFrame` | crates/mika-agent/src/db/tasks.rs:906-928 | a concrete cancel that closes two rows and announces one |
| `TaskFrames.CancelWithoutFrame` | crates/mika-agent/src/db/tasks.rs:906-928 | a concrete cancel whose cascade fails: the parent is cancelled and nothing is announced |
| `TaskFrames.ManualFrameExactly` | crates/mika-agent/src/async_db.rs:720-752 | a manual cancellation is announced whenever the row is there, and stands for a transition exactly when the row was not cancelled already |
| `TaskFrames.ManualFrameWithoutChange` | crates/mika-agent/src/db/tasks.rs:931-961 | a concrete manual cancellation announced without a change |
| `TaskFrames.RankRises` | crates/mika-agent/src/db/tasks.rs:764-928 | whatever fails, a guarded write that is announced takes its row strictly up to what it announces, and no guarded write lets any row sink |
| `TaskFrames.NoDuplicateFrames` | crates/mika-agent/src/async_db.rs:485-509 | over every interleaving of any closures whatsoever, two frames of guarded wrappers announce the same transition of a task only if a closure between them put the task back |
| `TaskFrames.NoSecondCommit` | crates/mika-agent/src/async_db.rs:695-718 | in any sequence of closures two guarded ones commit the same frame only if a closure between them, and not a guarded one, put the row back below it |
| `TaskFrames.SecondFrameExactly` | crates/mika-agent/src/async_db.rs:485-718 | a guarded write sends its frame again exactly when its guard accepts the row again; then the row was put back, and once it is put back to such a row and left alone the frame goes out again |
| `TaskFrames.RecurringClaimsTwice` | crates/mika-agent/src/db/tasks.rs:898-904 | claim, reschedule, claim: the same frame twice, as in the life of every recurring task |
| `TaskFrames.FrameAtRank` | crates/mika-agent/src/async_db.rs:1170-1192 | a guarded closure commits a frame only where its task is below what it announces, and takes it there |
| `TaskFrames.ReadThenWriteIsExact` | crates/mika-agent/src/async_db.rs:511-553 | in any run, the frame decided by the pre-fetch is right exactly when the row is as live at the write as at the read, and always when no other closure touched the row in between |
| `TaskFrames.ReadThenWriteIsSpurious` | crates/mika-agent/src/async_db.rs:511-553 | a concrete history with a frame and no transition |
| `TaskFrames.ReadThenWriteIsSilent` | crates/mika-agent/src/async_db.rs:511-553 | a concrete history with a transition and no frame |
| `PktFraming.ReadPackets` | scripts/mika-pilot-github-auth-addon.py:793-834 | the indexed loop, which ends because the bytes left shrink, computes the recursive reading of the section, for any payload parser |
| `PktFraming.ReadIsExact` | scripts/mika-pilot-github-auth-addon.py:793-834 | a body is read as these commands exactly when it is packets carrying them, a flush and anything; the decomposition is the only one and what follows the flush does not matter |
| `PktFraming.DecompositionIsUnique` | scripts/mika-pilot-github-auth-addon.py:793-834 | a body has at most one decomposition into packets, flush and rest |
| `PktFraming.DecompositionIsRead` | scripts/mika-pilot-github-auth-addon.py:793-834 | every body that decomposes into parsable packets is read, in order |
| `PktFraming.ReadHasDecomposition` | scripts/mika-pilot-github-auth-addon.py:793-834 | whatever was read came from a decomposition, which is handed back |
| `PktFraming.DigitsExactly` | scripts/mika-pilot-github-auth-addon.py:793-834 | the sixteen hexadecimal digits in either case have their values and no other byte is one |
| `PktLine.RefCommands` | scripts/mika-pilot-github-auth-addon.py:793-834 | the method computes the specified command section of any body, absent, empty, malformed or well formed |
| `PktLine.RoundTrip` | scripts/mika-pilot-github-auth-addon.py:769-834 | encoding any list of well-formed commands, with a NUL and capabilities or blanks after any of them, then a flush and any pack bytes, decodes to exactly that list |
| `PktLine.ParseTriplet` | scripts/mika-pilot-github-auth-addon.py:769-790 | one encoded command with any such tail parses to itself |
| `PktLine.ParsedIsWellFormed` | scripts/mika-pilot-github-auth-addon.py:769-790 | whatever the payload, a command that comes out is well formed, so the round trip covers every command the parser can return |
| `PktLine.ParsesExactly` | scripts/mika-pilot-github-auth-addon.py:769-790 | for every payload: it parses as a command exactly when it is blanks, two names and a ref separated by single spaces, and a tail that is blank or cut by a NUL; so two, four or more parts are refused |
| `PktLine.BlanksExactly` | scripts/mika-pilot-github-auth-addon.py:769-790 | the bytes stripped from a payload are the six ASCII blanks |
| `Utf8.DecodeEncode` | scripts/mika-pilot-github-auth-addon.py:783-787 | decoding an encoded text gives it back |
| `Utf8.EncodeDecode` | scripts/mika-pilot-github-auth-addon.py:783-787 | a byte string that decodes is the only encoding of its text: no overlong form, no surrogate |
| `PushJudge.PushPathsExactly` | scripts/mika-pilot-github-auth-addon.py:738-766 | a path is judged as a push of a repository exactly when it has the push shape for it |
| `PushJudge.PushPathReads` | scripts/mika-pilot-github-auth-addon.py:738-766 | the path git asks for names owner and repository without the suffix, whatever the query |
| `PushJudge.StaticBoundExactly` | scripts/mika-pilot-github-auth-addon.py:837-861 | a push is allowed exactly when the owner matches and every command is a non-deleting update of an unprotected branch; else the first offending command names the refusal |
| `PushJudge.RefusedFor` | scripts/mika-pilot-github-auth-addon.py:837-861 | a refusal gives the repository of a foreign owner, or the ref and the reason of the first command that is no plain update: deletion, then no branch, then protected |
| `PushJudge.ReadEntry` | scripts/mika-pilot-github-auth-addon.py:899-983 | the line loop keeps the last repository and ref a file declares |
| `PushJudge.LinesDeclare` | scripts/mika-pilot-github-auth-addon.py:899-983 | a repository line declares it lower-cased without its suffix, a ref line the ref as written, any other line nothing |
| `PushJudge.StripExactly` | scripts/mika-pilot-github-auth-addon.py:899-983 | stripping takes off blanks only and leaves none at either end |
| `PushJudge.PushScopeEntries` | scripts/mika-pilot-github-auth-addon.py:899-983 | the entry loop computes the declared couples of the directory: absent is empty, unreadable is none, skipped entries add nothing |
| `PushJudge.PerimeterExactly` | scripts/mika-pilot-github-auth-addon.py:986-1036 | a push is out of scope exactly when the registry is armed, readable and non-empty and either no entry names the repository, or every entry naming it declares a ref and some pushed ref is declared by none of those entries |
| `PushJudge.RefusalNames` | scripts/mika-pilot-github-auth-addon.py:986-1036 | a refusal names the repository when no entry does, and otherwise the first ref that no entry of that repository declares |
| `PushJudge.DegradesExactly` | scripts/mika-pilot-github-auth-addon.py:986-1036 | the three ways the perimeter is not applied in full, each exactly when it is reported: registry unreadable, nothing declared, an entry of the repository without a ref |
| `PushJudge.MoreEntriesAcceptMore` | scripts/mika-pilot-github-auth-addon.py:187-199 | over non-empty registries more declarations never refuse what fewer accepted |
| `PushJudge.FewerEntriesAcceptOnlyWhenEmpty` | scripts/mika-pilot-github-auth-addon.py:187-199 | taking declarations away accepts a refused push only when none is left |
| `PushJudge.FileAddsAtMostOne` | scripts/mika-pilot-github-auth-addon.py:899-983 | adding or purging one file adds or removes at most one couple and leaves the others |
| `PushJudge.NoBorrowedRef` | scripts/mika-pilot-github-auth-addon.py:986-1036 | whatever is declared, a ref that only entries of other repositories declare is refused, unless an entry of this repository declares none |
| `PushJudge.NoBorrowedBranch` | scripts/mika-pilot-github-auth-addon.py:986-1036 | with two dispatches in flight neither may push the other's branch, and the refusal names it |
| `Purge.ThereExactly` | scripts/mika-pilot-github-auth-addon.py:354-397 | after any history an entry is there with a stamp exactly when it had it from the beginning or was last written with it, and since then nobody touched it and no effective purge found that stamp older than its own TTL and could remove it |
| `LiveScopes.LiveExactly` | scripts/mika-pilot-github-auth-addon.py:899-983 | so which declarations are live is a matter of the history alone |
| `LiveScopes.JudgedAfterHistory` | scripts/mika-pilot-github-auth-addon.py:899-1036 | after any history, ending with the judge's own purge, a push is in scope exactly when it lies in the perimeter of the declarations that history let stand |
| `LiveScopes.UntouchedDeclarationCounts` | scripts/mika-pilot-github-auth-addon.py:354-397 | a declaration nobody touches counts as long as no effective purge found its file too old |
| `LiveScopes.PurgedWhileOthersLive` | scripts/mika-pilot-github-auth-addon.py:187-199 | when an effective purge dropped the one file naming a repository, nobody wrote it again and another declaration stands, every push to it is refused |
| `EgressFlow.RequestHeaders` | scripts/mika-pilot-github-auth-addon.py:1051-1102 | the first hook puts the host credential in place of every other one, answers 503 when there is none, or answers 403 for an API request whose headers present no attested sentinel while that is armed, and leaves other hosts alone |
| `EgressFlow.AttestedExactly` | scripts/mika-pilot-github-auth-addon.py:419-452 | attested are exactly the bare placeholder and the placeholder with a live nonce |
| `EgressFlow.CredentialExactly` | scripts/mika-pilot-github-auth-addon.py:310-351 | `Bearer` and `token` present their value, `Basic` the password after the first colon of what it encodes, every other scheme nothing |
| `EgressFlow.PresentedExactly` | scripts/mika-pilot-github-auth-addon.py:310-351 | what a client presents is read from the authorization header and, failing that, from the proxy one |
| `EgressFlow.PastFirstExactly` | scripts/mika-pilot-github-auth-addon.py:310-351 | the password is all that follows the first colon |
| `EgressFlow.Request` | scripts/mika-pilot-github-auth-addon.py:1105-1192 | the second hook answers 403 and strips the credential exactly for a judged push that may not be pushed, and otherwise changes nothing |
| `EgressFlow.HandleGitRequest` | scripts/mika-pilot-github-auth-addon.py:1051-1192 | across both hooks: forwarded exactly when it is no judged push or a permitted one; the host credential is on the request exactly when it is forwarded, and then it is the only one; other headers are untouched |
| `EgressFlow.MayPushExactly` | scripts/mika-pilot-github-auth-addon.py:1105-1192 | over the decoded commands themselves: a push is permitted exactly when the body decodes, the owner is the fixed one, every single command is a plain branch update, and either no perimeter applies or an entry names the repository and every single command's ref is declared for it |
| `EgressFlow.UndeclaredCommandIsRefused` | scripts/mika-pilot-github-auth-addon.py:1156-1192 | one command whose ref is not declared, wherever it stands in the push, refuses it |
| `EgressFlow.ForwardedBody` | scripts/mika-pilot-github-auth-addon.py:1105-1192 | the body of a forwarded push is a chain of packets each carrying a well-formed branch update |
| `EgressFlow.NormalFormsMeet` | scripts/mika-pilot-github-auth-addon.py:738-766 | a declaration and a URL spelling one repository in ASCII normalise alike exactly when the URL's suffix is not a differently-cased `.git` |
| `EgressFlow.UpperCaseSuffixDoesNotMeet` | scripts/mika-pilot-github-auth-addon.py:738-766 | a concrete repository whose two forms do not meet |
| `Purge.Purger.Sweep` | scripts/mika-pilot-github-auth-addon.py:354-397 | one purge leaves exactly the young and the stuck entries, or nothing happens when throttled, and no other directory changes |
| `Purge.Purger.HandleAll` | scripts/mika-pilot-github-auth-addon.py:222-229 | for every sequence of calls over all directories each directory ends as if only its own calls had been made |
| `Purge.SweepsAreSpaced` | scripts/mika-pilot-github-auth-addon.py:354-397 | effective purges of one directory are at least 600 s apart, and 600 s for each step between any two |
| `Purge.SweepsWhenDue` | scripts/mika-pilot-github-auth-addon.py:354-397 | a purge call goes through exactly when the directory was never swept or 600 s have passed since it last was |
| `Purge.SurvivesExactly` | scripts/mika-pilot-github-auth-addon.py:354-397 | an untouched entry survives a history exactly when no effective purge found it older than that purge's own TTL and removable |
| `A2aStore.Store.CreateTask` | crates/mika-agent/src/a2a_db.rs:187-235 | the three inserts without a transaction, failing anywhere, leave the tables and return the session the specification gives |
| `A2aStore.Store.UpdateTaskState` | crates/mika-agent/src/a2a_db.rs:290-326 | status, close time and first-start stamp move together; an unknown task changes nothing |
| `A2aStore.Store.AbandonTaskIfLive` | crates/mika-agent/src/a2a_db.rs:340-353 | only a live mapped row is closed, with its reason |
| `A2aStore.Store.SweepOrphans` | crates/mika-agent/src/a2a_db.rs:364-375 | exactly the agent's live rows are closed as failed, and counted |
| `A2aStore.Store.InsertMessage` | crates/mika-agent/src/a2a_db.rs:380-417 | the message is appended under the task's own session and stamped with the task |
| `A2aStore.Store.ReadMessages` | crates/mika-agent/src/a2a_db.rs:420-521 | the row loop returns the task-scoped history in insertion order, cut by the limit |
| `A2aStore.Store.Build` | crates/mika-agent/src/a2a_db.rs:703-769 | the built task is the one the tables specify, with its last agent message and close reason |
| `A2aStore.Store.HandleAll` | crates/mika-agent/src/a2a_db.rs:187-417 | any sequence of calls on the store is the run of the tables that the theorems speak of |
| `A2aGuarantees.EveryRunKeeps` | crates/mika-agent/src/a2a_db.rs:290-375 | over every run: closed in time exactly when the status closes; in progress implies fired; a result is a close object; every mapped task and session exist and belong to one agent |
| `A2aGuarantees.StampsNeverMove` | crates/mika-agent/src/db/tasks.rs:93-96 | however a run goes on, a first-start stamp never changes, rows and sessions never change hands, mappings and messages only grow |
| `A2aGuarantees.UpdateStampsExactly` | crates/mika-agent/src/a2a_db.rs:290-326 | an update writes the close time exactly for the three closing states and the start exactly at the first working one, and keeps agent and result |
| `A2aGuarantees.ClosesExactly` | crates/mika-agent/src/a2a_db.rs:340-375 | an abandoned live row ends cancelled and a swept one failed, with moment and reason, and a sweep leaves other agents' rows |
| `A2aGuarantees.BuildAlwaysReads` | crates/mika-agent/src/a2a_db.rs:703-769 | after every run every mapped task builds without error, and only those |
| `A2aGuarantees.CloseReasonReadsBack` | crates/mika-agent/src/a2a_db.rs:43-47 | an abandoned or swept task reads back closed with its reason, which a later state update leaves standing |
| `A2aGuarantees.FailedCreate` | crates/mika-agent/src/a2a_db.rs:187-235 | a failed create leaves the tables unchanged exactly when it failed at its first insert; later it leaves a live row no id names |
| `A2aGuarantees.AdoptsExactly` | crates/mika-agent/src/a2a_db.rs:119-173 | a create uses the named session exactly when the name is not empty, at most 200 bytes, free of control characters and an existing session of that agent; else it mints its own |
| `A2aGuarantees.CreatedIsSubmitted` | crates/mika-agent/src/a2a_db.rs:187-235 | a new task reads back as submitted, in its context, with no close reason |
| `A2aGuarantees.CreateParts` | crates/mika-agent/src/a2a_db.rs:187-235 | which session and mapping each create leaves, with any insert failing |
| `A2aGuarantees.CreateLeavesAnOrphan` | crates/mika-agent/src/a2a_db.rs:187-235 | a concrete create that leaves such a row |
| `A2aGuarantees.OrphanStaysUnmapped` | crates/mika-agent/src/a2a_db.rs:364-375 | no later event ever names such a row and only a sweep of its agent changes it |
| `A2aGuarantees.InsertedComesBack` | crates/mika-agent/src/a2a_db.rs:380-417 | an inserted message comes back as it was sent, and only for its own task |
| `A2aGuarantees.ReadsExactlyWhatWasWritten` | crates/mika-agent/src/a2a_db.rs:420-521 | over every interleaving of creates, inserts and saves, reading a task returns exactly what was written for it into its session, stamped saves made before the mapping included, in write order |
| `A2aGuarantees.SavedIsRead` | crates/mika-agent/src/a2a_db.rs:420-521 | a user or assistant row saved into the task's session without metadata is appended to what is read, its speaker by its role and its content as one text, exactly when its trace names the task |
| `A2aGuarantees.StampedSaveIsRead` | crates/mika-agent/src/a2a_db.rs:420-521 | a row whose metadata names the task is appended too, with the parts it carries or else its content |
| `A2aGuarantees.OnlyConversationIsRead` | crates/mika-agent/src/a2a_db.rs:420-521 | a row of another session, or of a system, summary or tool role, is never read |
| `A2aGuarantees.LimitKeepsTheOldest` | crates/mika-agent/src/a2a_db.rs:420-521 | a limit keeps that many of the oldest messages, a negative one all of them |
| `A2aGuarantees.ContentIsJoined` | crates/mika-agent/src/a2a_db.rs:89-98 | the content stored for a message is its text parts joined by line feeds |
| `A2aGuarantees.OtherTasksDoNotShow` | crates/mika-agent/src/a2a_db.rs:119-173 | at any place of a run, even before the task exists, an update, close, sweep, artifact or message of other tasks changes no read of this task |
| `A2aGuarantees.OtherEventsDoNotShow` | crates/mika-agent/src/a2a_db.rs:119-173 | once a task is mapped, any event at all that writes no message for it, even a create that adopts its session, changes no read of it |
| `A2aGuarantees.EarlierSessionDecidesAdoption` | crates/mika-agent/src/a2a_db.rs:119-173 | before it is mapped, what others opened decides which session it adopts |
| `A2aGuarantees.StoreLandsExactly` | crates/mika-agent/src/a2a_db.rs:64-86 | the store lands on the state it was told exactly for the five it maps; every other is stored as submitted; terminal states have no way out |
| `A2aGuarantees.ReadsBackAs` | crates/mika-agent/src/a2a_db.rs:64-86 | which stored statuses read back as which protocol state, in both directions |
| `A2aGuarantees.RefinesProtocol` | crates/mika-a2a/src/state_machine.rs:8-38 | every lawful run takes each task along the protocol machine, whose only extra edge is sweep's submitted-to-failed |
| `A2aGuarantees.EdgesInto` | crates/mika-a2a/src/state_machine.rs:8-38 | the machine read by its targets: which states lead to work, to cancellation, to failure and to each other state |
| `A2aGuarantees.ClosersAreIdempotent` | crates/mika-agent/src/a2a_db.rs:340-375 | after a sweep the agent has no live row; abandon and sweep are idempotent and never touch a terminal row |
| `A2aRender.RenderTaskText` | crates/mika-a2a/src/render.rs:120-202 | the loops and counters compute the specified text or the specified report of emptiness |
| `A2aRender.RenderFailsExactly` | crates/mika-a2a/src/render.rs:120-191 | rendering fails exactly when nothing or one empty text was collected |
| `A2aRender.ArtifactsComeFirst` | crates/mika-a2a/src/render.rs:120-202 | the rendered text is the artifacts' texts, a blank line and the agent's texts |
| `A2aRender.ParagraphsJoin` | crates/mika-a2a/src/render.rs:120-202 | joining puts one blank line between any two texts and adds nothing else |
| `A2aRender.AgentTextsExactly` | crates/mika-a2a/src/render.rs:120-202 | the agent's messages are rendered in order and the user's not at all |
| `A2aRender.PartsRenderAs` | crates/mika-a2a/src/render.rs:120-202 | a text is rendered verbatim, a file by its name or as unnamed, data as a tag |
| `A2aRender.ThirdTierIsRedundant` | crates/mika-agent/src/a2a_db.rs:733-768 | on every built task removing the status message changes neither text nor kind; no slice is reported exactly when both reads were empty |
| `ReplyScan.FindByLine` | crates/mika-agent/src/arch_paraphrase.rs:181-192 | for every text, and every pattern without line feed that does not end in a carriage return, folding and searching line by line finds the leftmost match of the whole folded text at its offset |
| `ReplyScan.FirstMatch` | crates/mika-agent/src/arch_paraphrase.rs:181-192 | the nested loop returns the first pattern that occurs anywhere, at its leftmost place |
| `ReplyScan.MatchIsSliceable` | crates/mika-agent/src/arch_paraphrase.rs:181-192 | both ends of a match in the folded text are boundaries of the original, so slicing never fails |
| `ReplyScan.FoldExactly` | crates/mika-agent/src/arch_paraphrase.rs:181-192 | folding leaves no ASCII capital and changes nothing but the case of those |
| `ReplyScan.LinesExactly` | crates/mika-agent/src/arch_paraphrase.rs:181-192 | a line ends at its line feed or at the end of the text, and a carriage return is taken off only before a line feed |
| `ReplyScan.AtLineStart` | crates/mika-agent/src/arch_disposition.rs:194-196 | some line starts with the marker exactly when the text starts with it or a line feed is followed by it |
| `ReplyScan.FirstLabelledToken` | crates/mika-agent/src/arch_disposition.rs:237-248 | the token of the leftmost label, blanks, token in the whole text with no line feed between; stepping over whole labels misses none |
| `ReplyScan.NoOverlap` | crates/mika-agent/src/arch_disposition.rs:237-248 | a label whose last byte occurs nowhere else in it never overlaps itself |
| `ReplyScan.HitExactly` | crates/mika-agent/src/arch_disposition.rs:237-264 | at every position of a line the loop's test and the whole-text notion agree |
| `ReplyScan.SpacesExactly` | crates/mika-agent/src/arch_disposition.rs:262-264 | the blanks between label and token are the six ASCII ones |
| `ReplyReader.AnchorExactly` | crates/mika-agent/src/arch_disposition.rs:169-172 | matching the escalation anchor left to right without backing up loses no match of the expression |
| `ReplyReader.EngineEscalationLine` | crates/mika-agent/src/arch_disposition.rs:205-214 | the first line that matches the anchor, or none when no line does |
| `ReplyReader.Paraphrase` | crates/mika-agent/src/arch_paraphrase.rs:200-211 | the loop over classes gives the first class whose pattern occurs in the whole folded text |
| `ReplyReader.TableOrder` | crates/mika-agent/src/arch_paraphrase.rs:200-211 | a reading names a pattern before which nothing in the table occurs; none means no pattern occurs |
| `ReplyReader.FragmentIsSliceable` | crates/mika-agent/src/arch_paraphrase.rs:181-192 | the fragment is always an existing, valid slice of the text |
| `ReplyReader.LabelsIsUnique` | crates/mika-agent/src/arch_disposition.rs:149-152 | because token names differ in their first letter, the leftmost labelled match names one token |
| `ReplyReader.NothingCarried` | crates/mika-agent/src/arch_disposition.rs:282-290 | when the first match of the other pass's form has no alias nothing is carried over, whatever follows |
| `ReplyReader.CarriedInFirstPass` | crates/mika-agent/src/arch_disposition.rs:282-290 | what is carried into the first pass: READY exactly for GROOMED, ESCALATE exactly for itself |
| `ReplyReader.CarriedInSecondPass` | crates/mika-agent/src/arch_disposition.rs:282-290 | what is carried into the second pass: GROOMED exactly for READY, ESCALATE exactly for itself |
| `ReplyReader.LabelledLineIsRead` | crates/mika-agent/src/arch_disposition.rs:237-248 | over any sound lexicon a line of the pass's label, blanks and one of its tokens is read as that token |
| `ReplyReader.Decide` | crates/mika-agent/src/arch_disposition.rs:296-371 | over any sound lexicon the decision is taken at the least tier whose whole-text condition holds and carries what that tier says |
| `ReplyReader.DecisionIsUnique` | crates/mika-agent/src/arch_disposition.rs:296-371 | the tiers determine the decision: at most one fits a text |
| `ReplyReader.FragmentExactly` | crates/mika-agent/src/arch_disposition.rs:296-371 | a fragment exactly at the paraphrase tier; it is sliceable and no earlier pattern of the table occurs |
| `ReplyReader.MarkerLineWithholds` | crates/mika-agent/src/arch_disposition.rs:296-371 | the withheld marker as a line of its own anywhere in any text forces Withheld without token |
| `ReplyLexicon.TheLexicon` | crates/mika-agent/src/arch_paraphrase.rs:106-163 | the protocol's literals and tables form a sound lexicon: labels that cannot overlap, tokens told apart by their first letter, patterns that never cross a line |
| `ReplyLexicon.EscalateOutweighs` | crates/mika-agent/src/arch_paraphrase.rs:106-163 | in both passes the word escalate outweighs every other paraphrase, wherever it stands |
| `ReplyLexicon.DecideReply` | crates/mika-agent/src/arch_disposition.rs:296-371 | the reader with its own literals takes the decision the tiers specify |
| `ReplyLexicon.FirstPassReads` | crates/mika-agent/src/arch_disposition.rs:296-371 | in the first pass: the literal tier gives the leftmost labelled token of the disposition label among READY, ITERATE, ESCALATE; carried over is READY exactly for a leftmost verdict GROOMED and ESCALATE exactly for ESCALATE; paraphrases come from the first table |
| `ReplyLexicon.SecondPassReads` | crates/mika-agent/src/arch_disposition.rs:296-371 | the mirror image: verdicts literally, READY carried over as GROOMED, ITERATE carrying nothing, paraphrases from the second table |
| `ReplyLexicon.FirstPassPhrases` | crates/mika-agent/src/arch_paraphrase.rs:106-163 | on any text that gets past the other tiers of the first pass: ESCALATE exactly when one of its five phrases stands anywhere in it, else ITERATE exactly when one of its five does, else READY likewise, else nothing |
| `ReplyLexicon.SecondPassPhrases` | crates/mika-agent/src/arch_paraphrase.rs:106-163 | the same for the second pass, ESCALATE by four phrases before GROOMED by five |
| `ReplyLexicon.DispositionLine` | crates/mika-agent/src/arch_disposition.rs:316-332 | `Disposition:` with READY, ITERATE or ESCALATE is that token at the literal tier of the first pass |
| `ReplyLexicon.VerdictLine` | crates/mika-agent/src/arch_disposition.rs:316-332 | `Verdict:` with GROOMED or ESCALATE is that token at the literal tier of the second pass |
| `ReplyLexicon.WithheldLine` | crates/mika-agent/src/agent_loop/mod.rs:9699-9699 | the marker line is withheld in both passes |
| `ReplyLexicon.EngineLine` | crates/mika-agent/src/arch_disposition.rs:169-172 | an engine line, indented or not and with any finding number, escalates in both passes |
| `LintScanners.ProductionSlices` | scripts/lib/egress_manifest_lint.py:291-359 | the scanner stops at the cut and returns exactly the kept lines before it and the test files named before it |
| `LintScanners.ProductionExactly` | scripts/lib/egress_manifest_lint.py:291-359 | the slices are strictly increasing in number and hold a line exactly when it stands before the cut, is no comment and no `cfg(test)` and is not consumed by a pending one |
| `LintScanners.FindCut` | scripts/lib/egress_manifest_lint.py:382-398 | the second scanner's own search finds the same cut as the first |
| `LintScanners.CutIsUnique` | scripts/lib/egress_manifest_lint.py:291-417 | a file has one cut, so two scanners that each find a cut find the same |
| `LintScanners.PendingPassesOver` | scripts/lib/egress_manifest_lint.py:331-349 | blank lines, comments and attributes after a `cfg(test)` leave it pending, and any other line ends it |
| `LintScanners.FindResumption` | scripts/lib/egress_manifest_lint.py:400-417 | the loop reports the first line that its own raw-string state leaves outside, that is an item and opens none |
| `LintAgreement.ScanLineExactly` | scripts/lib/egress_manifest_lint.py:400-417 | from a right state one line leads to a right one exactly when its text is clean: without an opening nothing is left open; a genuine opening stays open, or nothing is left open past its closing; a false one, in a string, a comment or the end of an identifier, is made up for by the rest |
| `LintAgreement.StatesAgreeExactly` | scripts/lib/egress_manifest_lint.py:400-417 | over a file the scanner is right at the head of every line exactly when it set out in code and every line is clean as Rust reads it |
| `LintScanners.ProductionResumes` | scripts/lib/egress_manifest_lint.py:362-417 | both halves together: the cut, and the first reported line after it, or none |
| `LintScanners.SearchOpening` | scripts/lib/egress_manifest_lint.py:286-288 | the leftmost raw-string opening of a line with its number of hashes |
| `LintScanners.NothingIsCountedTwice` | scripts/lib/egress_manifest_lint.py:291-417 | every production line stands before the cut, the resumption after it |
| `LintAgreement.ReportsFirstItemExactly` | scripts/lib/egress_manifest_lint.py:362-417 | the scanner is right at the end of an item-free part of a file exactly when, however the file goes on cleanly, it reports the first item of code, save one whose own line leaves a raw string open; every wrong state has a continuation that brings out a missed item or one reported from inside a string or comment |
| `LintAgreement.WrongShows` | scripts/lib/egress_manifest_lint.py:362-417 | that continuation, of one or two lines, for any two states that do not match |
| `LintAgreement.RightOnwards` | scripts/lib/egress_manifest_lint.py:362-417 | once right, the scanner reports right however the file goes on cleanly |
| `LintAgreement.ReportsFirstItemWhenClean` | scripts/lib/egress_manifest_lint.py:362-417 | in a file that is clean from the cut on, the first item of code is reported, exactly unless its own line leaves a raw string open |
| `LintAgreement.ItemOpeningARawStringIsMissed` | scripts/lib/egress_manifest_lint.py:400-417 | a concrete item line that is passed over |
| `LintAgreement.ItemInsideARawStringIsReported` | scripts/lib/egress_manifest_lint.py:400-417 | a line that completes one raw string and opens another makes the scanner report an item inside the second |
| `LintAgreement.ItemAfterAStringIsMissed` | scripts/lib/egress_manifest_lint.py:286-288 | an ordinary string that ends in r makes the scanner miss the item of code after it |
| `RustText.RawReads` | scripts/lib/egress_manifest_lint.py:286-288 | inside a raw string Rust heeds only the closing of that many hashes |
| `Compaction.CapSummaryExactly` | crates/mika-agent/src/compaction.rs:99-112 | the capped summary is a valid prefix of at most 4000 bytes, at least 3997 when cut, and no longer one would end at a boundary |
| `Compaction.BoundaryIsNear` | crates/mika-common/src/text.rs:8-11 | in valid text a character boundary is never more than three bytes back |
| `Compaction.ShowBatch` | crates/mika-agent/src/compaction.rs:129-150 | the budget loop shows exactly the longest prefix of the batch whose lines fit 50000 bytes |
| `Compaction.OrderedExactly` | crates/mika-agent/src/db.rs:3610-3639 | reading order is a rearrangement of the rows sorted by stamp and then id |
| `Compaction.Conversation.ReplaceWithSummary` | crates/mika-agent/src/db.rs:3641-3671 | rows up to the id go, the summary is replaced, and every message ever written is held or deleted, never both |
| `Compaction.Conversation.MaybeCompact` | crates/mika-agent/src/compaction.rs:47-88 | up to fifty messages or on any failure nothing changes; else the batch is shown as far as it fits, deleted through its last id and replaced by the capped summary |
| `Compaction.CompactsExactly` | crates/mika-agent/src/compaction.rs:47-88 | when the clock does not step back a compaction deletes exactly the oldest min(N - 20, 100) messages |
| `Compaction.CompactionsSettle` | crates/mika-agent/src/compaction.rs:47-88 | when the clock does not step back repeated compaction leaves only the newest messages, at least twenty; when it has nothing to do twenty to fifty are left, as a closed formula says |
| `Compaction.CompactionShrinks` | crates/mika-agent/src/compaction.rs:47-88 | whatever the clock did, a compaction takes at least one row, so repeated compaction ends |
| `CompactionClock.NothingUnsummarisedExactly` | crates/mika-agent/src/compaction.rs:47-150 | for every clock, every deleted message was shown to the summariser exactly when the batch fits the budget and no row past its hundredth has an id up to its last |
| `CompactionClock.NothingUnsummarisedWhenSteady` | crates/mika-agent/src/compaction.rs:129-150 | when the clock does not step back the budget alone decides |
| `CompactionClock.OversizedIsDeletedUnseen` | crates/mika-agent/src/compaction.rs:129-150 | a concrete conversation whose whole batch is deleted and none of it shown |
| `CompactionClock.DisplacedIsDeletedUnseen` | crates/mika-agent/src/db.rs:3610-3671 | a concrete conversation of empty messages that loses one its batch never held |
| `CompactionClock.WindowSurvivesExactly` | crates/mika-agent/src/db.rs:3610-3671 | for every clock and size, the newest twenty survive exactly when each has a larger id than the last row of the batch |
| `CompactionClock.WindowAboveCutoffSurvives` | crates/mika-agent/src/db.rs:3610-3671 | for any number of rows, a window whose ids all lie above the cutoff's survives |
| `CompactionClock.UncutWindowSurvivesExactly` | crates/mika-agent/src/db.rs:3610-3671 | for a batch that is not cut the cutoff decides both ways |
| `CompactionClock.SkewedLosesTheWindow` | crates/mika-agent/src/db.rs:3610-3671 | fifty-one messages, the last stamped early: compaction keeps one |
| `CompactionClock.SkewedLosesEverything` | crates/mika-agent/src/db.rs:3610-3671 | a hundred and twenty messages, the last stamped early: compaction keeps none |
| `CompactionRaces.NeverForgetsExactly` | crates/mika-agent/src/compaction.rs:47-88 | over every run of overlapping compactions whose batches were shown in full, every deleted message stays in what the stored summary was made from exactly when no compaction lands after another deleted something it had not seen |
| `CompactionRaces.StepForgetsExactly` | crates/mika-agent/src/compaction.rs:47-88 | the same at one landing |
| `CompactionRaces.NeverForgetsOnSchedule` | crates/mika-agent/src/compaction.rs:47-88 | where each was shown exactly what it deletes, the same as a schedule: nothing deleted between taking the summary and reading the batch, and afterwards nothing but what was shown |
| `CompactionRaces.FaithfulExactly` | crates/mika-agent/src/compaction.rs:129-150 | a batch is shown in full exactly when it fits the prompt and cuts cleanly |
| `CompactionRaces.RacingIsReachable` | crates/mika-agent/src/server/handlers.rs:2390-2402 | two overlapping compactions of one conversation, each shown exactly what it will delete, are reachable |
| `CompactionRaces.SlowLandingForgets` | crates/mika-agent/src/server/handlers.rs:2390-2402 | there, the slow one landing last leaves a deleted message in no summary |
| `Handsoff.ResolveThresholdPct` | crates/mika-agent/src/compaction_handsoff.rs:119-138 | the threshold in force is in 1..100, is the setting whenever that is, and 85 otherwise |
| `Handsoff.DueExactly` | crates/mika-agent/src/compaction_handsoff.rs:149-151 | the ceremony is due at exactly ceil(pct * 50 / 100) messages, and always when a compaction can fire |
| `Handsoff.CeremonyComesFirstExactly` | crates/mika-agent/src/compaction_handsoff.rs:149-151 | no compaction comes without its ceremony exactly when no turn adds more messages than the margin above the threshold |
| `HandsoffRuns.CompactedWithoutCeremony` | crates/mika-agent/src/compaction_handsoff.rs:149-151 | a concrete turn that overshoots the margin at 85 per cent |
| `Handsoff.OnlyDepositionsAreDepositions` | crates/mika-agent/src/compaction_handsoff.rs:209-222 | no receipt and no response is ever taken for a deposition |
| `Handsoff.NamesExactly` | crates/mika-agent/src/compaction_handsoff.rs:209-222 | a name is a deposition exactly when something stands before the suffix; how responses and receipts are named |
| `Handsoff.ReceiptIsOwn` | crates/mika-agent/src/read_receipt.rs:64-69 | two depositions never share a receipt |
| `Handsoff.Home.Scan` | crates/mika-agent/src/compaction_handsoff.rs:235-246 | exactly the depositions of the directory, in descending order |
| `Handsoff.Home.FindUnread` | crates/mika-agent/src/compaction_handsoff.rs:261-291 | the greatest deposition without a visible receipt, or none when all are read |
| `Handsoff.Home.Resolve` | crates/mika-agent/src/compaction_handsoff.rs:311-327 | an imminent turn touches no receipt; any other serves the newest unread deposition and lays its receipt if it can |
| `Handsoff.LessExactly` | crates/mika-agent/src/compaction_handsoff.rs:235-246 | the order of the names is the lexicographic one |
| `Handsoff.LaterIsServedFirst` | crates/mika-agent/src/compaction_handsoff.rs:261-291 | of two unread depositions the one with the greater character where they first differ comes first |
| `Handsoff.SecondDayIsServed` | crates/mika-agent/src/compaction_handsoff.rs:235-246 | of the depositions of two days the later is served |
| `HandsoffRuns.ImminentConsumesNothing` | crates/mika-agent/src/compaction_handsoff.rs:311-327 | ceremony and hand-off exclude each other in every turn |
| `HandsoffRuns.ServedAgainExplained` | crates/mika-agent/src/compaction_handsoff.rs:261-327 | over every run, whatever fails in it, a deposition is served again only if its receipt was not written, cannot be probed or was removed in between |
| `HandsoffRuns.ServedAtMostOnce` | crates/mika-agent/src/compaction_handsoff.rs:261-327 | so where none of that happened it is served at most once |
| `HandsoffRuns.UnwrittenReceiptServesAgain` | crates/mika-agent/src/read_receipt.rs:87-107 | a receipt that could not be written makes the same deposition come again |
| `HandsoffRuns.DrainsExactly` | crates/mika-agent/src/compaction_handsoff.rs:261-327 | N pending depositions are served newest first, one in each non-imminent turn, in exactly N such turns |
| `HandsoffRuns.NotServedBeforeCompaction` | crates/mika-agent/src/agent_loop/mod.rs:666-697 | a deposition written at an imminent turn is not served before a compaction went through, as long as no count fails |
| `HandsoffRuns.LateMessagesStay` | crates/mika-agent/src/compaction.rs:47-88 | what was stored after a compaction read its messages is still there when it lands, last and in order |
| `HandsoffRuns.LowThresholdStaysImminent` | crates/mika-agent/src/agent_loop/mod.rs:666-697 | with a clock that does not step back, at 40 per cent or less one imminent turn makes every later turn imminent, on the command line at 42 or less |
| `HandsoffRuns.ServesAtAllExactly` | crates/mika-agent/src/compaction_handsoff.rs:149-327 | with a clock that does not step back and compactions spawned outside the turn, a deposition ever reaches a successor exactly when the threshold is at least 41 per cent |
| `HandsoffRuns.ServesInlineExactly` | crates/mika-agent/src/agent_loop/mod.rs:6134-6143 | on the command line, which stores its message and compacts at the end of the turn, exactly when it is at least 43 per cent |
| `HandsoffRuns.EverySettingCanServe` | crates/mika-agent/src/server/handlers.rs:2390-2402 | with any clock every setting can serve, since a compaction that lands between arrival and count can delete every message |
| `HandsoffRuns.ServesInlineUnderAnyClockExactly` | crates/mika-agent/src/agent_loop/mod.rs:6134-6143 | on the command line, with any clock, exactly when the threshold is at least 3 per cent |

## Left out

- SQL, SQLite, tokio channels and mutexes, serde, mitmproxy and the regex engines: each call is modelled by its effect on tables, queue, headers or lines. A bounded send blocks until there is room, a oneshot is lost with its receiver, and a closure that panics keeps what it had written.
- Dropping every handle of the database actor without a shutdown: the model's handle outlives the run.
- `DbThread` takes the closures it serves as a list; the interleaving of receiving and sending is in the step system.
- The frames of task creation, which announce an insert and no transition.
- `update_task_status` is modelled for the status that broadcasts a frame (cancelled); with any other status it is a plain write.
- Task columns that no guard, frame or stamp reads (labels, schedules, results of the guarded writers), the unique index on live labels and foreign keys of the A2A tables: a violation shows only as a failing insert.
- Deletion of sessions and messages by retention, rewind or cascade: histories only grow in the A2A model, and shrink only by compaction in the other.
- Base64 decoding (an arbitrary function), environment switches beyond a boolean, the token cache, refusal bodies and logging.
- Python's Unicode lower-casing and stripping in the push judge are arbitrary functions (only the normal-form lemma fixes ASCII lower-casing); registry files are given as lines.
- Header names are taken as lower-cased, and a header as holding one value.
- `EgressFlow.NormalFormsMeet`: lower-casing is ASCII and the two spellings carry no blanks around them.
- `A2aStore.Store.ReadMessages`: the metadata column holds JSON, a message's own or another's; text that is no JSON at all, on which the database fails the whole read, is not modelled.
- `A2aStore.Store.Build`: for the same reason its read of the history does not fail.
- `A2aGuarantees.BuildAlwaysReads`: for the same reason it speaks of stores whose metadata is JSON.
- `Compaction.Conversation.MaybeCompact`: one call runs without another in between; calls that overlap are in `CompactionRaces`.
- `Purge.Purger.Sweep`: one scan visits its entries in any order; a file changed by another process during the scan is not modelled.
- The lint's line patterns are arbitrary predicates, so the results hold whatever they accept; of the item pattern only that it begins with a letter is used, and only to show that nothing less than agreement will do. Rust's reading covers strings, byte and C strings, raw strings, character literals and comments; lifetimes are told from literals by the closing apostrophe two places on, and a file is taken to begin in code.
- Host inventories, exceptions and the manifest comparison of the lint.
- The prompt text around the transcript, the wording of summaries and the model call itself: a summariser is any function of the old summary and the transcript.
- `HandsoffRuns.ServesAtAllExactly`: at most two compactions land in one turn, each on what the one before it left; how several that overlap combine is in `CompactionRaces`.
- Deposition names are compared by code point, which for UTF-8 is the byte order; names that are not Unicode are left out.
- Parsing of the threshold setting is given as a number or none.
- A2A artifacts are read and never written here; push configurations, the message census and context lookups are one-line queries.
- Streaming, JSON-RPC, parameter checks, skills, milestones, memory, dashboards and the other scripts.

Where code and comments disagree the code is followed: `mark_task_delivered` is documented for completed
tasks and also takes failed ones; the manual status wrapper takes an answer for an update that fired,
although an unchanged status is answered too; the history limit keeps the oldest messages; `with_db` has an error for a
stopped thread that no run can reach; an absent registry directory reads as an empty registry.
