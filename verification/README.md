# Clamp, modelled and proved in Dafny

Clamp keeps a knowledge bundle of Markdown concepts in a Git repository, publishes it, and
serves it through PostgreSQL and a Telegram bridge. This project models the parts of it that
are hardest to get right and proves what they promise.

`dafny verify dfyconfig.toml` checks everything.

## What is modelled

**Publication** (`CommitGraph`, `PublicationModel`, `PublicationTrace`, `Publication`,
`StateCodec`). The crash-resumable, non-force publisher of `lib/publication.ml`. The world is a
commit graph, local main, HEAD, a stopped rebase, the tracking ref, the two publication refs,
remote main and branches, and what the running process knows: the phase it is in, the tip
before a push it lost, and what it has just seen of a branch. `GitStep` says what one Git
command, another writer, the owner, or the beginning, end or death of a process may do to it.
`Promise` says what the publisher commits itself to before each command.
The class `Publisher` has one method for each function of the source. It records every step
it takes in a ghost run, and its invariant says that this run keeps to both, so the theorems
about runs hold of everything the publisher does. The commands among the steps are recorded
too, and the contracts say which sequences of them each part of the protocol may give
(`PublicationTrace`). Every Git command lets the other writers act first, may fail, may die
before or after taking effect, and `Serve` strings any number of invocations together.
`StateCodec` is the blob format with its three versions.

**Diagnostics** (`Sorting`, `Heap`, `BoundedReport`, `Diagnostics`). The collector of
`lib/diagnostic.ml` as a class over an array heap, proved against "sort everything and keep
the smallest", and the list-based merge of `lib/bundle.ml` proved against the collector.

**Numbers and text** (`Digits`, `Decimals`, `DigitLimits`, `ExactNumber`, `Text`, `Utf8`,
`Frontmatter`, `Snippet`, `Calendar`, `Timestamp`). YAML numbers denote reals, and the
canonical form is judged by them; UTF-8 is judged by the encoding of scalar values; dates by a
day-by-day calendar; timestamps by exact instants; snippets by the words of the body.

**Small machines** (`InboundQueue`, `MediaStore`, `ConnectionRace`, `ContentBatches`). The
bridge's queue and media store, the staggered connection race of `lib/database.ml`, and the
batched content check of `lib/retrieval.ml`, each as the loop or the object it is. Clocks,
sockets, answers, exceptions and failing log lines are left open.

## What is assumed

- One Git command is one atomic step. A ref transaction happens whole or not at all. A push is
  never forced: if it moves the ref, the move is a fast-forward. A push reported as failed may
  have moved it all the same. Other writers only fast-forward remote main; with other remote
  branches they do as they like.
- Between the beginning and the end of an invocation the owner does not touch the repository,
  and no other local command does. The lock is released before the synchronization, where
  another command may move local main; what is promised of a settled repository is promised
  for the end of the locked part.
- A push goes to a URL, so it does not update the tracking ref; only a fetch does.
- Nothing is assumed about where a rebase or an amend lands. Safety rests on the fast-forward
  rule and the already-remote test alone.
- Checks of the worktree, the index and the candidate tree are reads with an arbitrary
  outcome. The world holds the decoded state; that the blob carries exactly that is the
  subject of `StateCodec`.
- The YAML tokeniser is a parameter of `Parse`. The JSON quoting of a string is a parameter
  that returns one line in double quotes.
- The bridge's process survives an unhandled rejection. A throwing log line can reject the promise
  of `void this.run()` (`queue.ts:65`), or that of the `.catch` in `enqueue` (`queue.ts:25-27`);
  by default Node would end the process there, and the queue with it.
- A media token is fresh and has the form of 32 bytes in base64url.
- OCaml strings and JavaScript buffers are sequences of characters that stand for bytes.

## What turned out otherwise

- Local main does not move only by compare-and-swap. If `start` dies after its refs are created
  and before HEAD is detached, or a published run dies between switching back to main and
  deleting the refs, the next run rebases with HEAD on main, and the rebase moves it:
  `InterruptedStartMovesMain` and `InterruptedFinishMovesMain` are runs in which it happens.
  `HeadMoveMovesMainExactly` says when it can: exactly when HEAD, or the HEAD that a stopped
  rebase will restore, is on main beforehand. `InvocationMovesMainByCas` and
  `FreshMovesMainOnce` say that otherwise whole invocations, resumed and fresh, keep the promise,
  and `RunWith` that those which preserve or refuse leave local main alone even with HEAD on it.
  What remains is exactly the guard: `OtherResumesMoveMainExactly`.
- `epoch_microseconds` accepts whole seconds whose microseconds exceed 64 bits and returns a
  wrapped value; `EpochExactly` says exactly when its result is right. So `same_timestamp` can
  take a stored value for a timestamp that it is not, as `WrongComparison` shows;
  `ComparedRightlyExactly` says for which stored values it cannot, and
  `PostgresIsComparedRightly` that every finite timestamp of PostgreSQL is among them.
- A `Plain` scalar, which the parser never produces, could emit the closing delimiter;
  `PlainCanClose` shows it.
- A voice note larger than the whole media store empties the store before it is refused; this
  is part of the contract of `Put`.
- The bridge's documentation speaks of up to 10,000 remembered ids. The check runs before an id
  is added, so the memory can hold 10,001 until the next update: the contract of `Enqueue` says
  exactly when, and `Overfill` is a sequence of updates that gets there.
- While the queue is stopping, a log line that throws ends the worker for good and leaves the
  waiting jobs where they are. The invariant of the queue says that nothing else leaves a job
  without a worker, and the contract of each handler that this log line must have thrown.

Merging a late TODO diagnostic into a full result could differ from streaming it if an input
carried the marker's own code (`LateMergeAgreesExactly`). No input of the program does: only
`lib/diagnostic.ml:114` and `lib/bundle.ml:770` make a diagnostic with it, and both make the marker.

## Model

| member | source | states |
|---|---|---|
| StateCodec.IntRoundTrip | lib/publication.ml:247-312 | Every native integer, of either sign, that `string_of_int` writes is read back by `int_of_string_opt` (with its signs, prefixes, underscores and 63-bit range) |
| StateCodec.TakePrefix | lib/publication.ml:255-262 | `take` gives back a list that was put in front of another |
| StateCodec.TakeSplits | lib/publication.ml:255-262 | Whatever `take` returns is a split of its input at the count |
| StateCodec.BaselinePrefix | lib/publication.ml:264-273 | `parse_baseline` gives back the pairs that were flattened in front of a tail |
| StateCodec.BaselineSplits | lib/publication.ml:264-273 | Whatever `parse_baseline` returns flattens back to the fields it consumed |
| StateCodec.StatusRoundTrip | lib/publication.ml:241-245 | The two preservation fields determine the preservation state |
| StateCodec.RoundTrip | lib/publication.ml:247-352 | Every storable state (NUL-free, sorted, managed paths, digests, within the limits) is read back from its body, in version 3 |
| StateCodec.AcceptedIsStorable | lib/publication.ml:275-352 | A body accepted in version 1, 2 or 3 holds a state with every one of those properties |
| StateCodec.AcceptedExactly | lib/publication.ml:275-352 | A state is held by some accepted body if and only if it is storable |
| StateCodec.MigrationPreservesState | lib/publication.ml:409-423 | Rewriting an accepted body of any version and reading it again gives the same races, preservation, conflicts and baseline, in version 3 |
| StateCodec.StateBodyInjective | lib/publication.ml:247-253 | Two storable states never share a body |
| StateCodec.LegacyClaimsNoProof | lib/publication.ml:314-338 | Version 1 maps to not started or legacy unresolved, a version 2 branch only to pending; proof is only ever read from version 3 |
| PublicationModel.StepKeepsInvariant | lib/publication.ml:463-545 | Every step keeps: the tracking ref is contained in remote main, stored races are 0 to 3, pending or proven implies recorded conflicts |
| PublicationModel.RunKeepsInvariant | lib/publication.ml:463-545 | The invariant holds at every point of every run, crashes included |
| PublicationModel.RemoteMainOnlyAdvances | lib/publication.ml:1463-1513 | Between any two points of any run remote main only moves to descendants and never loses a commit |
| PublicationModel.SynchronizedIsPublished | lib/publication.ml:1589-1622 | The commit a synchronization is run on is contained in remote main then and ever after |
| PublicationModel.PreservationOnlyAdvances | lib/publication.ml:498-545 | Within one publication `original` never changes, preservation moves only forward with its branch fixed, and an active one has conflicts |
| PublicationModel.SeenHasEvidence | lib/publication.ml:1369-1446 | What a process remembers of a remote branch was pushed or observed at an earlier step of the run, and when that step was done the remote branch was at that commit |
| PublicationModel.ProofHasEvidence | lib/publication.ml:1359-1367 | A recorded proof is true of the past: at an earlier step `original` was pushed to, or found on, exactly the recorded branch, and the remote branch was at `original` then |
| PublicationModel.NothingPushedAfterProof | lib/publication.ml:1413-1424 | Once proof is recorded the publication pushes nothing again, to the branch or to main |
| PublicationModel.RacesAreCounted | lib/publication.ml:1160-1206 | The stored number of races is the number of counting steps of the publication, and stays within 0 to 3 |
| PublicationModel.PushRemembered | lib/publication.ml:1486-1510 | The tip a process compares with is the one its own last main push started from, and that push was not accepted |
| PublicationModel.RaceFollowsLostPush | lib/publication.ml:1496-1513 | A race is counted only after a main push by the same process that was not accepted, and a fetch that brought another tip than the one known at that push |
| PublicationModel.FurtherPushCostsARace | lib/publication.ml:1496-1513 | Between any two main pushes of one process a race is counted |
| PublicationModel.InvocationPushesAtMostThrice | lib/publication.ml:1463-1513 | An invocation pushes main at most three times, less one for each race that was counted before it |
| PublicationModel.RecoveryOnlyAfterThreeRaces | lib/publication.ml:1473-1494 | A push to any other branch than the pending one happens after exactly three counted races, to a recovery branch, with a head the tracking ref does not contain |
| PublicationModel.RefsDeletedOnlyWhenSafe | lib/publication.ml:537-545 | The two refs are deleted only if HEAD is contained in remote main, or at an earlier step `original` was on the proven remote branch, or HEAD's commit on a recovery branch |
| PublicationModel.InvocationMovesMainByCas | lib/publication.ml:1231-1251 | An invocation that finds HEAD off main, or if a rebase is stopped the HEAD that it restores, moves local main, to its very end, only by compare-and-swap from `original` to a commit contained in remote main |
| PublicationModel.FreshMovesMainOnce | lib/publication.ml:1560-1568 | A fresh invocation moves local main at most once more than that, by its one commit |
| PublicationModel.HeadMoveMovesMainExactly | lib/publication.ml:1193-1207 | A rebase, continuation or amend allowed in a state can leave local main on a commit that remote main does not contain if and only if HEAD, or the HEAD its stopped rebase will restore, is on main in that state |
| PublicationModel.OtherResumesMoveMainExactly | lib/publication.ml:1515-1558 | From a state with a publication where the invocation neither preserves nor refuses at once, as it begins it can strand local main if and only if HEAD, or the HEAD a stopped rebase restores, is on main |
| PublicationModel.InterruptedStartMovesMain | lib/publication.ml:1560-1568 | A concrete legal run of eight steps in which `create_state` is the last thing a dying start does, and the next run's rebase moves local main to an unpublished commit |
| PublicationModel.InterruptedFinishMovesMain | lib/publication.ml:1242-1248 | A concrete legal run in which a published invocation dies between switching back to main and deleting the refs, another writer pushes, and the next run's rebase moves local main |
| Publication.Publisher.Step | lib/publication.ml:402-407 | Every step of the publisher extends the recorded legal run by exactly that step |
| Publication.Publisher.CreateStateRefs | lib/publication.ml:463-476 | Both refs are created together, with HEAD as `original` and an empty state, and nothing else local changes; whatever the reply, either that has happened or nothing |
| Publication.Publisher.UpdateState | lib/publication.ml:478-496 | At most one update is given: races as asked, conflicts and baseline sorted without repetitions, preservation and `original` kept; whatever the reply, that is what the refs hold or they are as before |
| Publication.Publisher.UpdatePreservation | lib/publication.ml:498-529 | At most one update is given, and then for a well-formed branch and from no preservation to pending or from pending to proof of the same branch; nothing else of the state changes |
| Publication.Publisher.CleanupState | lib/publication.ml:537-545 | Both refs go together, and only when what they stand for is safe elsewhere |
| Publication.Publisher.CommitManagedIndex | lib/publication.ml:1093-1107 | The first commit moves local main and nothing else |
| Publication.Publisher.FinalizeRebasedCommit | lib/publication.ml:1109-1119 | An amend after a rebase leaves state, tracking ref and memory as they were |
| Publication.Publisher.RecordConflicts | lib/publication.ml:1129-1138 | The first genuine conflicts are recorded, sorted without repetitions and without TODO.md, races and preservation kept; with conflicts there already, or none genuine, nothing local changes |
| Publication.Publisher.ContinueRebase | lib/publication.ml:1140-1191 | Success means HEAD was moved, conflicts are cleared and one race is counted exactly if it was asked to; failure claims nothing |
| Publication.Publisher.RebaseOntoOrigin | lib/publication.ml:1193-1207 | Success means HEAD was moved and counts one race exactly if it was asked to; failure claims nothing |
| Publication.Publisher.Fetch | lib/publication.ml:1209-1211 | Only the tracking ref moves |
| Publication.Publisher.PushToMain | lib/publication.ml:1219-1221 | A push reported as accepted leaves the commit contained in remote main; any other may have moved main or not |
| Publication.Publisher.PushToBranch | lib/publication.ml:1219-1221 | A push reported as accepted is remembered as seen on that branch |
| Publication.Publisher.RemoteBranchStatus | lib/publication.ml:1223-1225 | One look is recorded; what was found is where the remote branch is, and the process remembers that commit, or nothing if the branch is absent |
| Publication.Publisher.SwitchToOriginal | lib/publication.ml:1227-1229 | Only HEAD moves, to `original` |
| Publication.Publisher.AttachPublishedMain | lib/publication.ml:1231-1251 | The commands are: none, or the switch with main already on the commit, or the compare-and-swap from `original` and then the switch; success leaves HEAD on main and main on the commit |
| Publication.Publisher.PreservedOutcome | lib/publication.ml:1344-1357 | Gives at most the deletion of the refs; says preserved only with evidence in the run, and without pending cleanup only when the refs are gone |
| Publication.Publisher.MarkPreservationProven | lib/publication.ml:1359-1367 | Proof of this branch, just seen at `original`, is recorded before the refs may go; a claim of preservation needs that record |
| Publication.Publisher.PushPendingPreservation | lib/publication.ml:1369-1381 | `original` is pushed to the branch once, and only an accepted push is followed by the record of proof; a claim of preservation needs both |
| Publication.Publisher.AllocatePendingPreservation | lib/publication.ml:1383-1393 | A well-formed branch is recorded as pending before anything is pushed, and what is pushed is `original` to that branch |
| Publication.Publisher.RecoverPostAbortConflict | lib/publication.ml:1395-1397 | Gives no command unless HEAD and local main are on `original`, no rebase is under way and the baseline matches the conflicts; then the branch is allocated as above |
| Publication.Publisher.RetryPendingPreservation | lib/publication.ml:1399-1411 | The first command looks at the branch; it is pushed only if it is absent, proof is recorded only if it is at `original`, and otherwise nothing more is given |
| Publication.Publisher.RetryProvenCleanup | lib/publication.ml:1413-1424 | The commands are one look and, only if the branch is still at `original`, the deletion of the refs: nothing is pushed or written; preserved is reported on the evidence of an earlier run |
| Publication.Publisher.AbandonRebase | lib/publication.ml:1426-1440 | Success means the rebase was aborted and HEAD put back on main, in this order, and both are on `original` |
| Publication.Publisher.PreserveConflict | lib/publication.ml:1426-1446 | The commands begin with the abort and the switch back to main, and only then is a branch recorded and pushed; a rebase without recorded conflicts is refused and nothing is given |
| Publication.Publisher.PublishedSuccess | lib/publication.ml:1453-1461 | Success names a commit contained in remote main; a failed cleanup is still success, and says so |
| Publication.Publisher.PublishAttempts | lib/publication.ml:1463-1513 | Terminates, because each further attempt needs one more of three races; success names a commit contained in remote main |
| Publication.Publisher.RetryAfterLostPush | lib/publication.ml:1500-1513 | Success, or any command after the fetch, needs a fetched tip other than the one known at the lost push; success also needs a record of one more race |
| Publication.Publisher.RebaseAndRetry | lib/publication.ml:1503-1513 | A success only after one more race than before has been recorded; at most three races make this terminate |
| Publication.Publisher.PushRecovery | lib/publication.ml:1473-1494 | The head is pushed to a recovery branch of this thread, and the refs go only if that is accepted; race exhaustion is reported only then, and names that head and branch |
| Publication.Publisher.ResumePreserving | lib/publication.ml:1515-1533 | The commands of each case are those of its protocol: pending is retried, proven is cleaned up, a stopped rebase is aborted first, a retained conflict is verified first, and a stopped rebase with a started preservation, or nothing to preserve, is refused untouched |
| Publication.Publisher.ResumePublishing | lib/publication.ml:1534-1558 | A retained conflict without a rebase is refused untouched; success means origin was fetched and HEAD rebased after that |
| Publication.Publisher.Resume | lib/publication.ml:1515-1558 | Every branch of a resumed run ends honestly; a claim of preservation names `original` and the recorded branch; a started preservation refuses an ordinary resume before anything is touched; a run that preserves or refuses leaves local main alone, and with HEAD off main it moves only by compare-and-swap |
| Publication.Publisher.FetchRebaseAndPublish | lib/publication.ml:1565-1568 | Success means origin was fetched, then HEAD rebased, and the commit is contained in remote main |
| PublicationTrace.StageReaches | lib/publication.ml:1560-1568 | Passing a milestone after the one before it advances the count of milestones passed in order |
| PublicationTrace.CreatedIsStorable | lib/publication.ml:463-476 | The state that a publication starts with is one the codec reads back |
| PublicationTrace.UpdatedIsStorable | lib/publication.ml:478-496 | From a storable state, any managed NUL-free conflict paths and digests within the limit, in any order and repeated, give a storable state, which the codec therefore reads back |
| PublicationTrace.PreservedIsStorable | lib/publication.ml:498-529 | So does either preservation on a well-formed branch of a NUL-free thread id |
| PublicationTrace.PreservingIsQuiet | lib/publication.ml:1515-1533 | No command sequence of a preserving resume holds a command that moves local main |
| PublicationTrace.QuietKeepsMain | lib/publication.ml:1515-1558 | If none of the commands of an invocation can move local main, no step of it does, other writers' and its death included |
| Publication.Publisher.Start | lib/publication.ml:1560-1568 | Success means commit, refs, detached HEAD, fetch and rebase were passed in this order; any other end is honest and never claims preservation; local main moves by one commit and compare-and-swap |
| Publication.Publisher.GitFlow | lib/publication.ml:1570-1587 | Dispatches to start or resume; a success is contained in remote main and, as the lock is released, either settled (main on the commit, HEAD on main, no refs) or reported as not cleaned up; local main moves as promised for resumed and for fresh runs |
| Publication.Publisher.SyncPublished | lib/publication.ml:1604-1622 | Synchronizes only after Git success; an Ok or `published` report names a commit contained in remote main, an Ok one that the repository was settled on before the synchronization |
| Publication.Publisher.RunWith | lib/publication.ml:1589-1622 | One whole invocation from any state: an Ok names a commit in remote main on which the repository was settled and which was then synchronized; a `published` failure names a commit in remote main, a `preserved` one the original commit with evidence in the run; no commit it pushes to main was known to be published, and it pushes main at most three times; local main stays if it preserves or refuses, and moves only by compare-and-swap if HEAD is off main, in a fresh run also by one commit |
| Publication.Publisher.Serve | lib/publication.ml:1589-1622 | Any number of invocations, crashes, owner actions and other writers in between remain one legal run, so every theorem above applies |
| Diagnostics.CompareIsTotal | lib/diagnostic.ml:16-19 | The comparison over all five fields is a total order whose ties are equal records |
| Heap.SiftUpRestores | lib/diagnostic.ml:55-61 | Sifting up restores the heap where one item is too large, and keeps the items |
| Heap.SiftDownRestores | lib/diagnostic.ml:63-75 | Sifting down restores the heap where one item is too small, and keeps the items |
| Heap.RootIsGreatest | lib/diagnostic.ml:82-92 | The root of a heap bounds every item |
| Diagnostics.Collector.constructor | lib/diagnostic.ml:45-46 | An empty collector of the given capacity |
| Diagnostics.Collector.SiftUpSlot | lib/diagnostic.ml:55-61 | In place, what the sift-up on sequences computes |
| Diagnostics.Collector.SiftDownSlot | lib/diagnostic.ml:63-75 | In place, what the sift-down on sequences computes |
| Diagnostics.Collector.Push | lib/diagnostic.ml:77-80 | A diagnostic is added while there is room, and nothing is dropped |
| Diagnostics.Collector.RemoveMax | lib/diagnostic.ml:82-86 | One slot is given up; the items left are still the smallest |
| Diagnostics.Collector.Consider | lib/diagnostic.ml:88-92 | After the limit, exactly the larger of the newcomer and the root is dropped |
| Diagnostics.Collector.Add | lib/diagnostic.ml:94-103 | The heap keeps the smallest of everything added, and `exceeded` says whether there were more than fit |
| Diagnostics.Collector.Diagnostics | lib/diagnostic.ml:107-119 | The answer is the sorted input, or the smallest N-1 with the limit marker, sorted |
| BoundedReport.ArrivalOrderIrrelevant | lib/diagnostic.ml:107-119 | The report depends on which diagnostics were added, not on their order |
| BoundedReport.LateMergeAgrees | lib/bundle.ml:755-775 | With no input carrying the marker's code, merging a late item gives what streaming it would have |
| BoundedReport.LateMergeAgreesExactly | lib/bundle.ml:755-775 | In general the merge agrees with streaming if and only if the limit is not reached or none of the smallest N-1 carries the code |
| Diagnostics.LateTodoAgreesExactly | lib/bundle.ml:755-775 | The same for the TODO diagnostic with the limit of 1,000 |
| ExactNumber.FloatTagAdmits | lib/exact_yaml.ml:104-124 | A float scalar's lexeme is a finite number or one of the four non-finite ones, case-insensitively, and nothing else |
| ExactNumber.RemoveUnderscores | lib/exact_yaml.ml:39-48 | The loop removes exactly the underscores |
| ExactNumber.StripLeadingZeroes | lib/exact_yaml.ml:50-54 | The loop removes exactly the leading zeros, leaving 0 for zero |
| ExactNumber.StripKeepsValue | lib/exact_yaml.ml:50-54 | Stripping keeps the value in any base and leaves no leading zero |
| ExactNumber.SplitOnceLoop | lib/exact_yaml.ml:91-102 | The scan splits at the only occurrence, and not at all if there are none or several |
| ExactNumber.BoundedExponent | lib/exact_yaml.ml:126-138 | The exponent is exact up to the limit and given up exactly beyond it |
| ExactNumber.HopelessExponent | lib/exact_yaml.ml:167-172 | An exponent beyond the limit puts any nonzero mantissa of this length out of range |
| ExactNumber.TrimZeros | lib/exact_yaml.ml:159-164 | The loops find the first and the last nonzero digit |
| ExactNumber.TrimmedValue | lib/exact_yaml.ml:158-174 | Dropping outer zeros and shifting the exponent keeps the number |
| Decimals.FitsExactly | lib/exact_yaml.ml:174-181 | A number has at most 131,072 integer and 16,383 fractional digits if and only if the length tests pass |
| ExactNumber.CanonicalFloat | lib/exact_yaml.ml:140-192 | A finite lexeme becomes the canonical text of exactly the same number if that fits, and out of range exactly if it does not; zero is accepted under any exponent |
| ExactNumber.CanonicalTextIsUnique | lib/exact_yaml.ml:183-192 | Canonical texts are equal if and only if the numbers are |
| ExactNumber.IntegerFits | lib/exact_yaml.ml:56-61 | An integer fits if and only if its magnitude is below the power of the digit limit |
| ExactNumber.CanonicalDecimalInteger | lib/exact_yaml.ml:56-61 | A decimal integer becomes canonical text of the same number if it fits, out of range otherwise |
| DigitLimits.TensBelowTwos | lib/exact_yaml.ml:63-63 | 10^131072 <= 2^435413 |
| DigitLimits.LongerIsTooLarge | lib/exact_yaml.ml:63-75 | A binary, octal or hexadecimal numeral beyond its length limit is at least 10^131072 |
| ExactNumber.CanonicalBasedInteger | lib/exact_yaml.ml:65-82 | A based integer is accepted exactly when it fits, the early length check included, and keeps its value |
| ExactNumber.CanonicalInteger | lib/exact_yaml.ml:84-87 | Integer lexemes are canonicalised by their notation against PostgreSQL's bounds; anything else is out of range |
| Utf8.DecodeEncodes | lib/frontmatter.ml:12-41 | What the acceptor takes for one character is the encoding of one scalar value |
| Utf8.EncodeDecodes | lib/frontmatter.ml:12-41 | The encoding of a scalar value is taken for one character and decodes to it, whatever surrounds it |
| Utf8.ValidExactlyEncodings | lib/frontmatter.ml:3-46 | A byte string is accepted if and only if it is the encoding of some sequence of Unicode scalar values (section 4 of RFC 3629) |
| Utf8.EncodeAllInjective | lib/frontmatter.ml:3-46 | That sequence is unique |
| Frontmatter.NormalizeNewlines | lib/frontmatter.ml:48-61 | The loop turns both carriage-return conventions into single newlines |
| Frontmatter.NormalizedHasNoReturn | lib/frontmatter.ml:48-61 | No carriage return is left |
| Frontmatter.NormalizeKeeps | lib/frontmatter.ml:48-61 | Text without carriage returns is unchanged |
| Frontmatter.ClosingDelimiterExactly | lib/frontmatter.ml:67-78 | The delimiter is found at a place if and only if that is the first whole line `---` after the opening |
| Frontmatter.LexemeIsOneLine | lib/exact_yaml.ml:251-260 | A number that fits its tag contains no newline |
| Frontmatter.EmitIsHarmless | lib/exact_yaml.ml:372-397 | A nonempty collection is emitted as whole lines, none of them the delimiter, at any indentation |
| Frontmatter.HeaderIsHarmless | lib/exact_yaml.ml:350-403 | The YAML of any mapping the parser could have built has no line `---` |
| Frontmatter.DocumentSplits | lib/frontmatter.ml:104-119 | A document around such YAML splits back into it and the trimmed body |
| Frontmatter.ParseOfSerialize | lib/frontmatter.ml:88-119 | Reading a serialised document recovers exactly the YAML text and the trimmed body; only a document that is not UTF-8 is refused |
| Frontmatter.SerializeIsStable | lib/frontmatter.ml:88-119 | Serialising what was read reproduces the document, if the YAML parser's result is emitted the same way |
| Frontmatter.PlainCanClose | lib/exact_yaml.ml:359-359 | A `Plain` scalar with a newline can emit the delimiter line, so the hypothesis is needed |
| Snippet.Snippet | lib/retrieval.ml:113-132 | The words of the body joined by single spaces, whole if at most 240 bytes, else cut at the last character boundary up to byte 237 and marked |
| Snippet.TrimmedCollapse | lib/retrieval.ml:114-126 | The buffer pass and the trim together join the maximal runs of non-blank bytes by single spaces |
| Snippet.SnippetIsStable | lib/retrieval.ml:113-132 | For any bytes: at most 240, no run of whitespace and none at the ends, and a snippet of a snippet is itself |
| Snippet.SnippetIsText | lib/retrieval.ml:127-132 | For valid UTF-8 the snippet is valid UTF-8, and a cut one keeps at least 234 bytes and ends on a character boundary |
| Calendar.NextIsOneLater | lib/retrieval.ml:224-234 | The day after any date, leap years and century rules included, has the next number |
| Calendar.DaysCountsDays | lib/retrieval.ml:224-234 | The difference of two dates' numbers is how often the day must be advanced from one to the other, for any years |
| Calendar.DaysGrow | lib/retrieval.ml:224-234 | Later dates have larger numbers |
| Calendar.EpochIsZero | lib/retrieval.ml:224-234 | 1 January 1970 is day 0 |
| Timestamp.AcceptsExactly | lib/concept.ml:15-78 | Accepted are exactly the texts of well-formed timestamps: real dates, no leap second, any number of fraction digits, Z or an offset |
| Timestamp.OnlyZone | lib/concept.ml:53-62 | The four searches for the zone and the later scan find the same place |
| Timestamp.TextIsRead | lib/retrieval.ml:236-283 | The parts of a timestamp are read from its text as they are |
| Timestamp.FractionRounds | lib/retrieval.ml:249-267 | Six digits and the rounding rule give the fraction in microseconds, rounded half to even, for any number of digits |
| Timestamp.MicrosecondsExact | lib/retrieval.ml:236-283 | Every accepted timestamp gives the microsecond nearest to its exact instant, ties to even, without overflow |
| Timestamp.EpochExactly | lib/retrieval.ml:285-306 | Decimal seconds give their exact microseconds if and only if those are in the 64-bit range; otherwise they wrap, or are refused when the whole part is no 64-bit integer |
| Timestamp.EpochInverts | lib/retrieval.ml:285-306 | Reading inverts PostgreSQL's rendering for every 64-bit count of microseconds |
| Timestamp.WrapsSilently | lib/retrieval.ml:300-305 | Seconds from 9223372036855 up are accepted with a wrong value |
| Timestamp.SameTimestampExactly | lib/retrieval.ml:308-313 | For every decimal seconds: they are taken for a concept's timestamp if and only if their whole part is below 2^63 and their microseconds, modulo 2^64, are its instant rounded half to even |
| Timestamp.ComparedRightlyExactly | lib/retrieval.ml:285-313 | Stored seconds are compared rightly with every timestamp if and only if their microseconds fit 64 bits, or their whole part does not, or wrapping them ends outside the years 0 to 9999 |
| Timestamp.StampOf | lib/retrieval.ml:236-283 | Every microsecond from the first to the last of those years, offsets included, is nearest to some timestamp |
| Timestamp.PostgresIsComparedRightly | lib/retrieval.ml:285-313 | So for any seconds up to 9224318015999, PostgreSQL's last, the comparison is right, although some of them do not fit 64 bits |
| Timestamp.WrongComparison | lib/retrieval.ml:300-313 | 18446744073710 seconds are taken for 1970-01-01T00:00:00.448384Z |
| ContentBatches.AddRows | lib/retrieval.ml:574-592 | A batch passes exactly if its rows are readable, a permutation of the batch, and new; its rows are then in the table |
| ContentBatches.Preflight | lib/retrieval.ml:528-551 | The batches are asked for only if one readable row counts as many rows as there are paths and every size is within its limit; each refusal means its own fault of that answer |
| ContentBatches.ValidateContent | lib/retrieval.ml:553-597 | Ok means the preflight's answer fits and the table's keys are exactly the requested paths, each from one row of an answer; but for the deadline, fitting answers to distinct paths are always accepted, and a row error means an answer did not fit or a path was asked for twice |
| ContentBatches.Pigeonhole | lib/retrieval.ml:571-588 | As many distinct rows as the batch, none foreign, are the batch |
| InboundQueue.InboundQueue.constructor | integrations/telegram-bridge/src/queue.ts:10-17 | An empty, idle queue |
| InboundQueue.InboundQueue.Prune | integrations/telegram-bridge/src/queue.ts:69-74 | What stays is what is left after dropping the oldest as long as they are too old or more than ten thousand |
| InboundQueue.InboundQueue.Knows | integrations/telegram-bridge/src/queue.ts:20-21 | With a steady clock an id is remembered if and only if it was accepted within a day and among the last ten thousand |
| InboundQueue.InboundQueue.Enqueue | integrations/telegram-bridge/src/queue.ts:19-29 | Duplicate, full or accepted exactly as promised; accepted jobs join the end, or go to the idle worker at once; the memory then holds 10,001 ids if and only if a job was accepted while 10,000 stayed |
| InboundQueue.Overfill | integrations/telegram-bridge/src/queue.ts:19-29 | A sequence of 10,001 updates after which the memory holds 10,001 ids |
| InboundQueue.InboundQueue.Run | integrations/telegram-bridge/src/queue.ts:40-43 | A second worker is never started beside a running one |
| InboundQueue.InboundQueue.NextJob | integrations/telegram-bridge/src/queue.ts:44-50 | The oldest waiting job is taken and asked for once; with none left the worker ends and the waiters are told |
| InboundQueue.InboundQueue.Failed | integrations/telegram-bridge/src/queue.ts:53-60 | A failed job is confirmed as failed once, unless this log line throws; then another worker takes over, or while stopping the waiting jobs stay |
| InboundQueue.InboundQueue.AfterForward | integrations/telegram-bridge/src/queue.ts:48-54 | A forwarded job is confirmed once; one that failed is confirmed as failed, unless the log line about it throws; then the next job is taken, or while stopping nothing more |
| InboundQueue.InboundQueue.AfterConfirmation | integrations/telegram-bridge/src/queue.ts:51-60 | Confirmed and logged, the next job is taken; anything else is a failure of this job, confirmed as such unless its log line throws |
| InboundQueue.InboundQueue.AfterFailure | integrations/telegram-bridge/src/queue.ts:55-61 | The next job is taken, unless a log line throws while stopping: then the worker ends and the waiting jobs stay |
| InboundQueue.InboundQueue.Resume | integrations/telegram-bridge/src/queue.ts:48-61 | From any await to the next, whatever the action and the log do, no job is lost or repeated, and the worker goes on with this job or the next unless a log line has thrown while stopping |
| InboundQueue.InboundQueue.Leave | integrations/telegram-bridge/src/queue.ts:62-66 | After a throwing log a new worker takes over unless stopping; then the jobs are left where they are |
| InboundQueue.InboundQueue.Stop | integrations/telegram-bridge/src/queue.ts:31-38 | Nothing more is accepted; the caller waits unless the queue is idle |
| InboundQueue.RepeatsUnderSteadyClock | integrations/telegram-bridge/src/queue.ts:69-74 | Two acceptances of one id are more than 24 hours or at least ten thousand acceptances apart |
| InboundQueue.PendingRepeatsAreOld | integrations/telegram-bridge/src/queue.ts:19-29 | Two waiting or in-flight jobs with one id were accepted more than a day apart |
| InboundQueue.ForwardedInTurn | integrations/telegram-bridge/src/queue.ts:44-50 | Each deliverable job is asked for exactly in the turn of its acceptance |
| MediaStore.MediaStore.Prune | integrations/telegram-bridge/src/media-store.ts:41-45 | Exactly the expired entries go, in one pass with deletion |
| MediaStore.MediaStore.Delete | integrations/telegram-bridge/src/media-store.ts:47-51 | The entry and its bytes are both taken off |
| MediaStore.MediaStore.MakeRoom | integrations/telegram-bridge/src/media-store.ts:18-22 | The oldest go until there is room |
| MediaStore.EvictionsLeast | integrations/telegram-bridge/src/media-store.ts:18-22 | What goes is the shortest sufficient oldest part |
| MediaStore.MediaStore.Put | integrations/telegram-bridge/src/media-store.ts:16-28 | Expired entries and that part go, the note is stored, the size is the sum of the lengths and within 64 MiB; a note too large empties the store |
| MediaStore.MediaStore.Get | integrations/telegram-bridge/src/media-store.ts:30-39 | A note is returned exactly as stored, if it is unexpired and not evicted, and only then |
| ConnectionRace.ConnectionRace.Close | lib/database.ml:776-783 | A connection is taken off the open ones and finished once |
| ConnectionRace.ConnectionRace.CloseAll | lib/database.ml:784-788 | Every open connection is finished once |
| ConnectionRace.ConnectionRace.Start | lib/database.ml:789-804 | The next target in order is tried; a start that succeeds is a quarter of a second after the last, or alone |
| ConnectionRace.ConnectionRace.PollingOkBeforeDeadline | lib/database.ml:333-338 | Success means the deadline had not passed after configuring |
| ConnectionRace.ConnectionRace.Inspect | lib/database.ml:806-830 | A winner is up, in time and no longer ours; failed ones are closed; the rest stay pending |
| ConnectionRace.ConnectionRace.Turn | lib/database.ml:831-887 | One turn of the loop keeps every connection accounted for and the stagger due |
| ConnectionRace.ConnectionRace.Race | lib/database.ml:774-897 | On return the winner is the only connection not finished and all others were finished once; targets in order; starts staggered |
| ConnectionRace.OthersFinishedOnce | lib/database.ml:784-788 | With a winner, every other started connection has been finished exactly once and the winner not at all |

## Left out

- Liveness of publication. A crash after the rebased commit and before the conflicts are cleared
  leaves a state that ordinary resume refuses; only safety is claimed.
- Publication refs of another thread, the checks of configuration, identity, index and candidate
  tree, the error kinds, messages, causes and paths of failures, and the exit classes.
- Publication.Publisher.RecordConflicts: the fingerprints of the conflict baseline are arbitrary.
- Publication.Publisher.CommitManagedIndex: what the commit contains is not modelled.
- The 16 MiB limit on command output, which also bounds the state blob.
- Decoding a state blob and encoding it again need not give the same bytes, because
  `int_of_string_opt` accepts other spellings of a number; the state is the same.
- Frontmatter.SerializeIsStable: what the YAML parser makes of the emitted text is a hypothesis,
  because the tokeniser is not part of this model.
- The order in which two mapping fields with the same key would be emitted; a parsed mapping has
  no such pair.
- Snippet.Snippet: the body is any byte string; the search that ranks and selects bodies is not
  modelled.
- Timestamp.AcceptsExactly: `date` is modelled on the ten bytes that `rfc3339` passes to it.
- ContentBatches.ValidateContent: the answers to the queries, the deadline and the readability of a
  row are inputs; the retry and the SQL are not modelled.
- InboundQueue.InboundQueue.Resume: which action fails, and when a log line throws, is left open;
  the timeout of `stop` only ends the caller's wait and is not modelled. `Telegram` and `Amp`
  calls are the recorded requests.
- ConnectionRace.ConnectionRace.Race: the source's loop has no bound, so it is followed for a given
  number of turns; the failure messages and the names of the targets are left out.
- The ranking score, token bucket and other floating-point arithmetic.
- Local file transactions, sync, scaffolding, upgrades, the installer, configuration, the CLI, JSON
  envelopes, HTTP, SQL text and catalog checks: plumbing around the parts modelled here.
