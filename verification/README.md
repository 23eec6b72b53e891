# Verification model of HYDRA-UMC-DEV-SERVER

A Dafny model of the parts of the development server, and of the tools of its repository, whose promises span more
than one call. `dafny verify dfyconfig.toml` checks everything.

| part | files | what it is about |
|---|---|---|
| durable lease queue | `QueueModel`, `QueueRuns`, `QueueOutcomes`, `QueueUpkeep`, `LeaseQueue` | a task queue shared by many processes: one transaction is one step over `(entries, journal)`, the clock is an argument of the step, and a run is any sequence of steps |
| incident transport | `IncidentMessages`, `VerifierHistory`, `ReplayCondition`, `VerifierStores`, `VerifierVerdicts`, `ClockCondition`, `IncidentSessions`, `SessionProgress`, `IncidentTransport`, `Decimal` | verification of signed messages with a store of nonces that forgets and a sliding rate window, kept in memory or in SQLite, and the session of one incident on top |
| lines and pictures | `Words`, `LineFilling`, `Wrap`, `Boxes`, `Grid`, `GridSpots`, `Architecture`, `ArchitectureSpots` | greedy line breaking, the grid of the structure picture and the boxes of the architecture picture |
| file tree | `TreePrinter`, `TreeShape`, `TreeReader`, `TreeShorthands`, `TreeRoundTrip`, `TreeEntries` | printing the tree of a repository and reading its first level back from a README |
| migration | `Porcelain`, `Migration`, `MigrationRoots`, `MigrationCommand` | what git reports about a checkout, where every file of it is copied, and where that is once "`.`" and "`..`" are followed |
| backup | `BackupPaths`, `Backup` | backup, verification and restore over a map from paths to bytes |
| versions | `Versions` | the decimal odometer with its switch from three components to four, and the synchronization of two version numbers |
| shared | `Text`, `Paths`, `Sets`, `Wrappers` | strings as Python orders and strips them, parts of paths, counting in sets, `Option` and `Result` |

Where the source updates state in place the model has a class (`DurableQueue`, `VerifierState`, `SqliteVerifierState`,
`IncidentSession`, `BackupFs`, `Project`) or a method with the loop of the source; each method is tied to a function on
values, and the theorems are about those functions, over all inputs or over all runs. Many lemmas whose names end in `Iff`, and
the modules `QueueOutcomes`, `VerifierVerdicts`, `SessionProgress`, `TreeShape`, `TreeShorthands`, `GridSpots` and
`ArchitectureSpots`, say what those functions mean in terms of their inputs alone.

## Where the code and a plausible promise part

Where something fails, the input that shows it and the exact condition are lemmas of the model.

* `2 * (max - attempt) + leased` falls with every state change of a task except exactly one, the cancellation of a task
  that waits in the queue (`RawFuelFallsUnlessWaitingIsCancelled`, `CancellingAWaitingTask`). The fuel of `MovesBurnFuel`
  is 0 on entries that have ended; the bound of 2 * max * N state changes holds.
* "A message is accepted at most once" fails for some messages dated after the moment they are accepted.
  `ReplayCondition.AcceptedAgainIff` says for every policy which: besides the date it takes room in the rate windows for
  one more message that makes the store forget the nonce, and then for the message itself.
* The stores in memory and in SQLite can part when the clock steps back. With a limit of M messages they agree on all
  runs at given instants if and only if there are no M earlier readings, close enough together to be counted at once, that
  are all inside the minute at some reading although one of them had left it in between (`StoresAgreeIffNoCrowd`). They
  agree for every limit if and only if what was a minute old once stays so (`StoresAgreeIffSteady`). A clock that steps
  back inside a minute does no harm.
* `docs/INCIDENT_TRANSPORT.md` describes a dropped connection as leaving the session `pending-ack`. In the code a channel
  that raises changes neither the state nor the last message, but the session is already about the new incident: after a
  first submission nothing can be sent again, and after a later one it is still the previous incident that is
  (`WhatCanBeResent`, `ResendIsAboutTheSessionIff`, `OldIncidentIsResent`).
* "The classes land separately" is tested on the text of the roots. What the paths resolve to is separate for all files if
  and only if no directory of a root is, or lies below, another one and the checkout is not called "`..`"
  (`AlwaysApartIff`); the text decides that exactly for roots without "`.`", "`..`" and empty parts
  (`SeparateMeansResolved`). `DotsHideANesting` gives accepted roots that put private files in the place of published ones,
  `DotsShowANesting` separate ones that are refused, `ParentNameLeavesItsRoot` a checkout called "`..`", and `StaysInsideIff`
  says which names and paths stay inside their class under all plain roots.
* An inventory gives two names that differ in back slashes against slashes only one destination, and no other two
  (`CopiesMeetIff`, `BackSlashMeetsSlash`). The listing of a git checkout turns back slashes itself and drops repeats, so its
  copies never meet (`PlannedCopiesDiffer`), but there a file with a back slash in its name gets no copy of its own
  (`ListedIff`). Two directories can share a name in the same way (`BackSlashHidesADirectory`).
* A backup can verify and still not hold the bytes of the source (`NestedRootsLoseBytes`). Copying a sorted list of plain
  paths is faithful for every store if and only if no copy writes over the source of a later one (`CopyIsFaithfulIff`);
  roots of which neither contains the other always meet that.
* The documented tree entry `run.sh run.bat` names two files; the reader of the README sees the first only
  (`SecondFileIsNotReadBack`). The entry `build.sh / build.bat` of this repository is read in full, but its slash is listed
  as an empty name (`BothFilesAreReadBack`). `PrintAndReadAgree` says exactly when a tree of such entries is read as it is
  listed, `EntryAgreesIff` and `SpacedEntryAgreesIff` when a single entry is.
* A stacked card with a negative number of columns, which the validation lets pass, gets a negative height, and later cards
  stand on earlier ones (`NegativeColumnsOverlap`). No picture that is written shows that (`WrittenPicturesAreWellPlaced`).
* `bump` and `next_version` carry alike exactly on the versions that `CarriesAlike` describes; all versions made of digits are.
* Roots of a backup may hold "`..`" too; `JoinStaysInside` shows that an accepted manifest path stays inside its root once
  such parts are followed.

## Model

| member | source | states |
|---|---|---|
| `LeaseQueue.DurableQueue.Enqueue` | src/hydra_umc_dev_server/durable_queue.py:210-236 | the first enqueue of a task id creates its entry and one journal row; a later one changes nothing, returns the stored entry, and reports a conflict exactly when the fingerprints differ |
| `LeaseQueue.DurableQueue.Lease` | src/hydra_umc_dev_server/durable_queue.py:238-262 | grants the oldest queued task, raises its attempt by one, sets holder and expiry, and journals it; refuses a time to live that is not positive |
| `QueueModel.LeaseTakesTheOldest` | src/hydra_umc_dev_server/durable_queue.py:246-250 | something is granted exactly when something is queued, and it is the row with the least enqueue time, then task id |
| `QueueModel.OldestIsUnique` | src/hydra_umc_dev_server/durable_queue.py:246-250 | that order leaves no ties, so the choice is determined |
| `QueueOutcomes.FirstInFirstOut` | src/hydra_umc_dev_server/durable_queue.py:246-250 | the task that is granted was first enqueued before every other waiting one, or at one instant with it and with the lesser id in code point order |
| `LeaseQueue.DurableQueue.RenewLease` | src/hydra_umc_dev_server/durable_queue.py:269-275 | moves the expiry of a lease held by the worker, whether or not it has expired |
| `LeaseQueue.DurableQueue.RecordResult` | src/hydra_umc_dev_server/durable_queue.py:277-339 | the verdict, the new entry and the journal row of a reported result, refused ones included; promotable means accepted, completed with exit code 0 and observed on the stored base |
| `LeaseQueue.DurableQueue.Cancel` | src/hydra_umc_dev_server/durable_queue.py:341-352 | cancels exactly the queued and leased tasks |
| `LeaseQueue.DurableQueue.Reconcile` | src/hydra_umc_dev_server/durable_queue.py:354-376 | reclaims every expired lease, in whatever order the rows are listed, and returns how many there were; each is parked exactly if there is a positive limit that its attempts have reached, else queued again |
| `LeaseQueue.DurableQueue.PruneJournal` | src/hydra_umc_dev_server/durable_queue.py:378-391 | ranking the rows of every task from the newest on leaves the pruned journal; entries stay and the number of deleted rows is returned |
| `LeaseQueue.DurableQueue.JournalFor` | src/hydra_umc_dev_server/durable_queue.py:398-405 | the rows of one task in order |
| `LeaseQueue.DurableQueue.CheckHealth` | src/hydra_umc_dev_server/operations.py:266-299 | the findings of the operational health report |
| `QueueModel.ReclaimsInOneGo` | src/hydra_umc_dev_server/durable_queue.py:354-376 | the reconciliation loop reclaims each selected entry once from its state before the loop, touches no other, and adds one row for each |
| `QueueRuns.ReachableIsSound` | src/hydra_umc_dev_server/durable_queue.py:204-376 | in every reachable state an entry is leased exactly when it has a holder and exactly when it has an expiry |
| `QueueRuns.LeasesNeverOverlap` | src/hydra_umc_dev_server/durable_queue.py:238-275 | lease exclusion over every run with a clock that does not go back: between two grants of a task a reconciliation closes the first lease strictly after its final, renewed expiry, and attempts rise |
| `QueueRuns.AcceptedIffHoldingTheLease` | src/hydra_umc_dev_server/durable_queue.py:294-321 | a result is accepted exactly from the holder of a lease that has not expired |
| `QueueRuns.OneAcceptedResult` | src/hydra_umc_dev_server/durable_queue.py:294-339 | at most one result per task is accepted in a run |
| `QueueRuns.SucceededIffProven` | src/hydra_umc_dev_server/durable_queue.py:294-339 | a task is succeeded exactly when its accepted result completed with exit code 0 and observed the base fingerprint of its first enqueue |
| `QueueOutcomes.ReportIsAnswered` | src/hydra_umc_dev_server/durable_queue.py:294-339 | in any run, told by the report, the lease and the first enqueue: whether a report is accepted, whether it is promotable, the final state and which of the four reasons is given; the next state, and the single row with the tails of at most 2048 characters |
| `QueueOutcomes.CompletedRowsTell` | src/hydra_umc_dev_server/durable_queue.py:294-339 | every completed row of a reachable journal tells of an accepted report, and its verdict is promotable exactly if that report passed on the base of the first enqueue |
| `QueueRuns.BaseIsTheFirstOne` | src/hydra_umc_dev_server/durable_queue.py:210-236 | no later step changes recipe, fingerprint or base of a task |
| `QueueRuns.TerminalForever` | src/hydra_umc_dev_server/durable_queue.py:294-376 | ended entries never change again |
| `QueueRuns.AcceptedIffReportedInTime` | src/hydra_umc_dev_server/durable_queue.py:238-321 | a report is accepted if and only if it comes no later than the expiry that the last grant or renewal of its worker set, with no cancellation and no other report of that worker since |
| `QueueRuns.JournalConservation` | src/hydra_umc_dev_server/durable_queue.py:238-376 | without pruning the leased rows of a task carry the attempts 1 to n, as many as its closing rows, plus one exactly when it is leased now or was cancelled while leased |
| `QueueRuns.AttemptsStayWithinLimit` | src/hydra_umc_dev_server/durable_queue.py:354-376 | with a positive limit queued means attempt < limit and leased means attempt <= limit |
| `QueueOutcomes.ExpiredLeaseIsParkedIff` | src/hydra_umc_dev_server/durable_queue.py:354-376 | in any run: a reconciliation dead-letters a task whose lease has expired exactly if the task was granted at least as often as a positive limit says, otherwise the task waits again; the one new row says which of the two it was; it touches nothing else |
| `QueueOutcomes.DeadLetteredAtTheLimit` | src/hydra_umc_dev_server/durable_queue.py:354-376 | under one limit a dead-lettered task was granted exactly that often, and without a positive limit none ever is |
| `QueueOutcomes.AttemptCountsTheGrants` | src/hydra_umc_dev_server/durable_queue.py:238-262 | the attempt of a task is the number of its grants so far |
| `QueueRuns.MovesBurnFuel` | src/hydra_umc_dev_server/durable_queue.py:238-376 | the fuel of a task falls with every grant, accepted result, cancellation and reclaim of it, and with nothing else |
| `QueueRuns.RawFuelFallsUnlessWaitingIsCancelled` | src/hydra_umc_dev_server/durable_queue.py:238-376 | 2 * (limit - attempt) + leased falls with every state change of a task except exactly the cancellation of a waiting one, which leaves it alone |
| `QueueRuns.CancellingAWaitingTask` | src/hydra_umc_dev_server/durable_queue.py:341-352 | a run of two steps in which it does not fall |
| `QueueRuns.RunsTerminate` | src/hydra_umc_dev_server/durable_queue.py:238-376 | N tasks allow at most 2 * limit * N state changes in a run |
| `QueueUpkeep.PruningKeepsTheNewest` | src/hydra_umc_dev_server/durable_queue.py:378-391 | every task keeps exactly its newest min(n, count) rows in order |
| `QueueUpkeep.PrunedRows` | src/hydra_umc_dev_server/durable_queue.py:378-391 | the rows that stay keep their order in the whole table |
| `QueueUpkeep.PruningIsIdempotent` | src/hydra_umc_dev_server/durable_queue.py:378-391 | pruning again with the same number deletes nothing |
| `QueueUpkeep.ReconcileIsIdempotent` | src/hydra_umc_dev_server/durable_queue.py:354-376 | a second reconciliation at the same instant returns 0 and changes nothing |
| `QueueUpkeep.ReconcileOrderIsIrrelevant` | src/hydra_umc_dev_server/durable_queue.py:356-376 | the order of the selected rows matters neither to the entries nor to the journal of any task |
| `QueueUpkeep.RenewalRevivesAnExpiredLease` | src/hydra_umc_dev_server/durable_queue.py:269-275 | a renewal takes an expired lease away from the reconciliation, unless the time to live is negative |
| `QueueUpkeep.HealthAgreesWithReconcile` | src/hydra_umc_dev_server/operations.py:266-299 | the orphans that the report counts are the ones a reconciliation at that instant returns, and afterwards it counts none |
| `QueueUpkeep.HealthyIff` | src/hydra_umc_dev_server/operations.py:266-299 | the report is ok exactly when nothing is expired, the journal is within its cap and the disk above its floor |
| `QueueUpkeep.CompletedRowsIdentifyTheRecipe` | src/hydra_umc_dev_server/durable_queue.py:294-339 | every completed row names the revision and fingerprint its task was enqueued with, in every reachable state |
| `VerifierHistory.ReplaysAreFarApart` | src/hydra_umc_dev_server/incident_transport.py:209-224 | a nonce accepted twice was accepted more than a replay window apart, and the second message is dated after the first acceptance |
| `VerifierHistory.NotFutureDatedOnce` | src/hydra_umc_dev_server/incident_transport.py:312-330 | a message not dated after its own acceptance is accepted at most once in a whole run |
| `ReplayCondition.AcceptedAgainIff` | src/hydra_umc_dev_server/incident_transport.py:312-330 | for every policy: an accepted message can be accepted again in some continuation if and only if it was dated after its acceptance and the rate windows leave room, as computed from the messages accepted so far |
| `ReplayCondition.AcceptedAgainIffFutureDated` | src/hydra_umc_dev_server/incident_transport.py:312-330 | with a window of at least a minute and a limit of at least two messages only the date matters |
| `VerifierHistory.RateBound` | src/hydra_umc_dev_server/incident_transport.py:212-224 | no node has more accepted messages than allowed in any half-open window of 60 seconds |
| `VerifierHistory.RefusedLeavesNoTrace` | src/hydra_umc_dev_server/incident_transport.py:289-330 | taking a refused message out of a run changes no acceptance |
| `ClockCondition.StoresAgree` | src/hydra_umc_dev_server/incident_transport.py:188-273 | after every run with a clock that does not go back, memory, SQLite and a reference that forgets nothing give the same verdict, and the nonce INSERT never meets its primary key |
| `StoreRefinement.SeenAreTimed` | src/hydra_umc_dev_server/incident_transport.py:188-224 | the seen nonces are always the keys of their times |
| `StoreRefinement.RefusedIsInvisible` | src/hydra_umc_dev_server/incident_transport.py:319-330 | in the memory store a refused message consumes no nonce and no rate slot |
| `ClockCondition.StoresAgreeIffNoCrowd` | src/hydra_umc_dev_server/incident_transport.py:188-273 | for every limit: over all configurations with it and all runs at given instants, the two stores give the same verdicts if and only if the clock has no crowd of that many earlier readings, all inside the minute at a later one after one of them had left it |
| `ClockCondition.StoresAgreeIffSteady` | src/hydra_umc_dev_server/incident_transport.py:188-273 | they do so for all limits if and only if no reading falls back inside the minute of an earlier one after that minute had ended; a limit of one already decides |
| `ClockCondition.SteadyClockKeepsTheStoresTogether` | src/hydra_umc_dev_server/incident_transport.py:188-273 | on such a clock the verdicts are the same and the nonce INSERT never meets its primary key |
| `ClockCondition.CrowdSeparatesTheStores` | src/hydra_umc_dev_server/incident_transport.py:212-273 | wherever there is a crowd, messages of two nodes make the memory refuse as overloaded what the file accepts |
| `ClockCondition.WithoutACrowdTheStoresAgree` | src/hydra_umc_dev_server/incident_transport.py:188-273 | and without one every verdict of the run is the same and the nonce INSERT never meets its primary key |
| `IncidentTransport.VerifierState.VerifyMessage` | src/hydra_umc_dev_server/incident_transport.py:276-330 | verdict and new tables of the memory store for one message; each refusal code is given exactly if its check, written on the fields of the message, is the first to fail |
| `IncidentTransport.SqliteVerifierState.VerifyMessage` | src/hydra_umc_dev_server/incident_transport.py:227-330 | the same for the SQLite store, whose nonce INSERT never fails |
| `VerifierVerdicts.ScreenIff` | src/hydra_umc_dev_server/incident_transport.py:289-315 | sender, claimed sender, recipient, version ("incident-transport/1" or a text that continues it with a dot), signature and date are checked in this order: a code is given exactly if its check is the first to fail |
| `VerifierVerdicts.MemoryVerdictIff` | src/hydra_umc_dev_server/incident_transport.py:276-330 | each verdict of the memory store exactly, from the fields of the message, the seen nonces and the logged times within 60 seconds |
| `VerifierVerdicts.TablesVerdictIff` | src/hydra_umc_dev_server/incident_transport.py:227-330 | the same of the SQLite store, from its two tables |
| `VerifierVerdicts.KnownIff` | src/hydra_umc_dev_server/incident_transport.py:209-224 | after any run, whatever the clock did, a nonce is known exactly if an accepted message brought it and no message accepted since was more than the replay window later |
| `VerifierVerdicts.VerdictOfARun` | src/hydra_umc_dev_server/incident_transport.py:188-330 | the verdict on the next message of a run with a clock that does not go back, in both stores, from the messages accepted before it |
| `IncidentTransport.IncidentSession.SubmitIncident` | src/hydra_umc_dev_server/incident_transport.py:381-392 | what a submission changes when the channel sends and when it raises |
| `IncidentTransport.IncidentSession.Pump` | src/hydra_umc_dev_server/incident_transport.py:394-427 | consumes the whole inbox; the session becomes the result of delivering its messages in order (`StateTellsWhatWasTaken` says what that result is) |
| `IncidentTransport.IncidentSession.Reconcile` | src/hydra_umc_dev_server/incident_transport.py:429-445 | sends again exactly while pending with a last message, under a new id and nonce |
| `SessionProgress.StateTellsWhatWasTaken` | src/hydra_umc_dev_server/incident_transport.py:394-427 | from a submission on: pending exactly while nothing was taken, submitted exactly after an acknowledgement only, diagnosed exactly after a diagnosis and before a verification, closed as the verification says |
| `SessionProgress.PayloadsAreThoseTaken` | src/hydra_umc_dev_server/incident_transport.py:421-425 | the diagnosis and the verification kept are the payloads of the last ones taken |
| `SessionProgress.SendsUntilAnswered` | src/hydra_umc_dev_server/incident_transport.py:429-445 | the incident is sent again exactly when asked and taken by the channel, as long as nothing was taken from the peer, and never after |
| `SessionProgress.SentMessagesPassThePeer` | src/hydra_umc_dev_server/incident_transport.py:381-445 | every message of a session is from this node to its peer and carries the secret of this node: a peer that registers that secret finds nothing wrong with it while it is fresh |
| `IncidentSessions.OnlyForward` | src/hydra_umc_dev_server/incident_transport.py:394-445 | the rank of the state never falls and a closed session keeps its outcome |
| `IncidentSessions.VerifiedOnlyByThePeer` | src/hydra_umc_dev_server/incident_transport.py:394-427 | deploy-verified implies one accepted, peer-signed message to this node about this incident with verified true |
| `IncidentSessions.AcceptedVerificationCloses` | src/hydra_umc_dev_server/incident_transport.py:424-427 | and an accepted deploy-verification closes the session one way or the other |
| `IncidentSessions.OneEntryPerRefusal` | src/hydra_umc_dev_server/incident_transport.py:405-417 | `rejected` grows by exactly one entry for each refused message |
| `IncidentSessions.RefusedChangesNothingElse` | src/hydra_umc_dev_server/incident_transport.py:405-417 | a refused message changes nothing else of the session |
| `IncidentSessions.SentIdsNeverRepeat` | src/hydra_umc_dev_server/incident_transport.py:373-445 | ids of sent messages never repeat, whichever sends failed |
| `IncidentSessions.ResendsRepeatTheIncident` | src/hydra_umc_dev_server/incident_transport.py:429-445 | every message sent after a submission repeats its payload, kind, sender and receiver |
| `IncidentSessions.WhatCanBeResent` | src/hydra_umc_dev_server/incident_transport.py:381-445 | after any submission something can be sent again exactly if the channel took it or something could be before |
| `IncidentSessions.ResendIsAboutTheSessionIff` | src/hydra_umc_dev_server/incident_transport.py:381-445 | after any run a resend is about the incident of the session if and only if the last submission that the channel took names the incident of the last submission |
| `IncidentSessions.WithoutOwnIdsResendsFollow` | src/hydra_umc_dev_server/incident_transport.py:381-445 | the same without payloads that bring their own incident id; it always holds while the channel takes every submission |
| `IncidentSessions.OldIncidentIsResent` | src/hydra_umc_dev_server/incident_transport.py:381-445 | a run that sends the first incident again although the session is about the second |
| `Decimal.FourDigitsIsInjective` | src/hydra_umc_dev_server/incident_transport.py:373-375 | different counters give different padded numerals |
| `Decimal.FourDigitsIsTheNumeral` | src/hydra_umc_dev_server/incident_transport.py:373-375 | the padded numeral has the value of the counter, at least four digits, and no leading zero when there are more |
| `LineFilling.GreedyIsAhead` | tools/_readme_svg.py:92-106 | exchange argument: the k-th cut of a greedy split is never before the k-th cut of a valid one |
| `LineFilling.GreedyIsOptimal` | tools/_readme_svg.py:92-106 | whenever a valid split exists the greedy one is valid, and no valid split is shorter |
| `Wrap.WrapText` | tools/_readme_svg.py:85-106 | succeeds exactly when the words can be grouped in order into at most `lines` lines that fit; the lines fit, joined they are the words in order, none but the last has room for the next word, and no grouping has fewer |
| `Words.SplitAtSpace` | tools/_readme_svg.py:94-94 | white space separates words wherever it stands, so a text has the words of its two parts |
| `Boxes.Problems` | tools/_readme_svg.py:139-152 | finds every text that leaves the picture or its card and every pair that overlaps, and nothing else |
| `Boxes.TextsOfDisjointCards` | tools/_readme_svg.py:139-152 | texts that stay in disjoint cards do not overlap |
| `Grid.FillRows` | tools/make_structure.py:260-268 | cards fill rows in order with at most three columns each; no row has room for the first card of the next one, and no in-order filling has fewer rows, whatever their `columns` |
| `Grid.PlaceCards` | tools/make_structure.py:254-279 | fails exactly on a stacked card with no columns; otherwise, on the fewest rows, every card has the position that the heights of the rows above and the spans to its left give it |
| `Grid.CardsInOrder` | tools/make_structure.py:259-279 | the placement holds every card once, in order, on the row whose group it is in |
| `Grid.WrittenPicturesAreWellPlaced` | tools/_readme_svg.py:139-157 | in every picture that passes its check and has a text on every card, whatever the numbers of columns, the cards are inside the grid and apart |
| `Grid.DrawableCardsAreWellPlaced` | tools/make_structure.py:240-279 | and so they are whenever stacked cards have a positive number of columns |
| `Grid.NegativeColumnsOverlap` | tools/make_structure.py:240-279 | accepted cards of which the third is placed on the first |
| `Grid.CardsAreDisjoint` | tools/make_structure.py:269-279 | no two placed cards overlap |
| `Grid.StackedRowsHaveCells` | tools/make_structure.py:374-381 | every row of a stacked card with a positive number of columns has a cell of its own in a column that exists |
| `Grid.StackedRowsStayInside` | tools/make_structure.py:240-249 | stacked rows stay within the height computed for their card |
| `GridSpots.FewestRows` | tools/make_structure.py:260-268 | the rows hold the cards in order, and no other rows of at most three columns that do are fewer |
| `GridSpots.RowsOfAColumn` | tools/make_structure.py:248-248 | a column of a stacked card holds the least number of rows for which the columns suffice |
| `GridSpots.NextRowOfTheGrid` | tools/make_structure.py:269-279 | the first row begins at 200 and each other one 30 below the one before; its cards stand 25 apart at one height, that of the highest |
| `GridSpots.NextSpot` | tools/make_structure.py:374-381 | the rows of a stacked card go down its columns, 36 apart |
| `Architecture.LayOut` | tools/make_architecture.py:161-192 | accepted exactly when columns and frame fit; then the boxes are those of the specification, each at its place, none overlap, the inner ones are inside the frame, the others clear of it, all inside the picture |
| `Architecture.ColumnsPartitionTheNodes` | tools/make_architecture.py:161-192 | the three columns together are the nodes of the specification |
| `ArchitectureSpots.SideIsSpaced` | tools/make_architecture.py:168-174 | the boxes of a side column start at 116, in order, 16 apart |
| `ArchitectureSpots.SideFitsIff` | tools/make_architecture.py:175-176 | a side column is accepted exactly if its last box ends at 530 or above |
| `ArchitectureSpots.RowsAreFull` | tools/make_architecture.py:178-181 | the inner boxes fill their rows in order, and only the last may be shorter |
| `ArchitectureSpots.NextRowOfTheFrame` | tools/make_architecture.py:182-187 | the first row begins at 136 and every other one 20 below the highest box before it |
| `ArchitectureSpots.FrameFitsIff` | tools/make_architecture.py:188-190 | the frame is accepted exactly if its last row ends at 518 or above |
| `Porcelain.ParsePorcelain` | src/hydra_umc_dev_server/migration.py:487-502 | the loop computes the rows of a token list |
| `Porcelain.ParsingInvertsPrinting` | src/hydra_umc_dev_server/migration.py:487-502 | parsing the NUL-terminated print of well-formed rows gives the rows back, whatever the old paths of renames look like |
| `Porcelain.PathsComeBackIff` | src/hydra_umc_dev_server/migration.py:499-499 | the paths are unchanged exactly when none has a back slash |
| `Porcelain.ShortTokensAreSkipped` | src/hydra_umc_dev_server/migration.py:491-502 | behind any rows a token of fewer than four characters is skipped, alone |
| `Porcelain.ReportedIff` | src/hydra_umc_dev_server/migration.py:504-511 | the modified and the untracked paths are exactly those of the printed rows with such a code |
| `Porcelain.ModifiedAndUntrackedAreDisjoint` | src/hydra_umc_dev_server/migration.py:504-511 | no path is both modified and untracked |
| `Migration.WithinTwoRoots` | src/hydra_umc_dev_server/migration.py:111-114 | nothing lies within two roots unless one lies within the other |
| `Migration.WithinIff` | src/hydra_umc_dev_server/migration.py:111-114 | a path lies within a root exactly if it is the root or goes on behind it with a slash, trailing slashes aside |
| `Migration.FromDict` | src/hydra_umc_dev_server/migration.py:140-158 | collects exactly the errors there are, and accepts only absolute roots of which none contains another |
| `Migration.SeparateRootsHaveNoErrors` | src/hydra_umc_dev_server/migration.py:140-158 | absolute, separate roots are never rejected |
| `Migration.BuildInventory` | src/hydra_umc_dev_server/migration.py:251-286 | every file once, in sorted order, with size, hash and class: private if the policy says so, whatever git says; else untracked, modified or clean as git reports, and untracked without git |
| `Migration.ByClassDivides` | src/hydra_umc_dev_server/migration.py:221-222 | the four lists per class together hold every entry of an inventory as often as it does |
| `Migration.BuildPlan` | src/hydra_umc_dev_server/migration.py:348-398 | the plan, or the refusal of the first private file that would land under a shared root |
| `Migration.RefusalIsUnreachable` | src/hydra_umc_dev_server/migration.py:368-374 | with accepted destinations that refusal, a test on the text, never happens |
| `Migration.EveryClassLandsApart` | src/hydra_umc_dev_server/migration.py:348-398 | every entry has exactly one copy, by its text under the root of its class and no other; entries with different paths and the bundle never share a destination |
| `Migration.ManifestIff` | src/hydra_umc_dev_server/migration.py:358-361 | the manifest names exactly the paths of the entries, with the hash of the last entry of each |
| `Migration.CopiesMeetIff` | src/hydra_umc_dev_server/migration.py:251-286 | the copies of two files meet exactly when their names agree once back slashes are turned |
| `Migration.BackSlashMeetsSlash` | src/hydra_umc_dev_server/migration.py:275-277 | two different names with one destination, for a listing that holds both |
| `MigrationRoots.LandsApartIff` | src/hydra_umc_dev_server/migration.py:365-367 | over directories that are separate, a copy resolves below the directory of its class and below no other exactly if its path comes back down through what it goes up from |
| `MigrationRoots.AlwaysApartIff` | src/hydra_umc_dev_server/migration.py:348-398 | for a name without a slash: all classes and the bundle resolve apart for all files if and only if the directories of the roots are separate and the name is not ".." |
| `MigrationRoots.StaysInsideIff` | src/hydra_umc_dev_server/migration.py:365-367 | for any name and path: the copy resolves apart under all plain, accepted roots if and only if name and path together never lead up, and lead down |
| `MigrationRoots.SeparateMeansResolved` | src/hydra_umc_dev_server/migration.py:111-114 | for roots without empty, "." and ".." parts the test on the text is the test on the directories |
| `MigrationRoots.DotsHideANesting` | src/hydra_umc_dev_server/migration.py:140-158 | absolute, accepted roots with ".." under which a private and a published file of one name are one file |
| `MigrationRoots.DotsShowANesting` | src/hydra_umc_dev_server/migration.py:140-158 | roots with ".." that are refused although their directories are separate |
| `MigrationRoots.ParentNameLeavesItsRoot` | src/hydra_umc_dev_server/migration.py:281-281 | a private file of a checkout named ".." that resolves into the directory of the published files |
| `MigrationCommand.IterFiles` | src/hydra_umc_dev_server/migration.py:444-461 | the listing of a git checkout, in the order of first mention |
| `MigrationCommand.ListedIff` | src/hydra_umc_dev_server/migration.py:453-461 | a path is listed exactly if it is a regular file and some entry of git stands for it |
| `MigrationCommand.ListedOnce` | src/hydra_umc_dev_server/migration.py:451-460 | no path is listed twice |
| `MigrationCommand.ListedInOrder` | src/hydra_umc_dev_server/migration.py:451-461 | the listing follows the first mention of each path |
| `MigrationCommand.NamesHaveNoSlash` | src/hydra_umc_dev_server/migration.py:281-281 | only a root of slashes alone gives a checkout a name with a slash |
| `MigrationCommand.DirectoryIsItsName` | src/hydra_umc_dev_server/migration.py:281-281 | a checkout in a directory without back slashes is called as the directory is |
| `MigrationCommand.BackSlashHidesADirectory` | src/hydra_umc_dev_server/migration.py:281-281 | two different directories that are called alike |
| `MigrationCommand.PlannedCopiesDiffer` | src/hydra_umc_dev_server/migration.py:444-461 | in the plan of a git checkout no two copies and no copy and bundle share a destination |
| `MigrationCommand.FilesGoWhereGitSays` | src/hydra_umc_dev_server/migration.py:238-398 | from the privacy policy and the three sets that git reports alone: a planned copy lies within the private root exactly if its path is private, within the reference root exactly if it is not and git names it nowhere, within the root of local changes otherwise, never within the fourth; and its full destination |
| `MigrationCommand.CopyLandsApartIff` | src/hydra_umc_dev_server/migration.py:365-367 | exactly which planned copies resolve below the directory of their class and no other |
| `MigrationCommand.CheckoutsMeetIff` | src/hydra_umc_dev_server/cli.py:240-262 | copies of two checkouts meet exactly if name, path and class root are the same, bundles exactly if the names are, a copy and a bundle never |
| `MigrationCommand.PlanMigration` | src/hydra_umc_dev_server/cli.py:240-262 | from the document to the plans of all checkouts: fails exactly on invalid destinations or without a checkout; then every listed file has one copy, where the privacy policy and git put it, no two meet, differently named checkouts stay apart, and under plain roots, names and paths every class resolves below its own directory only |
| `TreePrinter.TreeItems` | tools/make_structure.py:141-155 | refused exactly when a description lacks the language; otherwise the entries in order, translated |
| `TreePrinter.RenderTree` | tools/make_structure.py:158-173 | the printed lines, and the column: three behind the longest described entry |
| `TreePrinter.TreeNames` | tools/make_structure.py:176-192 | the set of first-level names that the entries list |
| `TreeShape.EntriesInOrder` | tools/make_structure.py:141-155 | the entries are those of the cards, told by their fields: rows of a group, one line for a folder with a text of its own, else the folder and its rows |
| `TreeShape.RefusedIff` | tools/make_structure.py:81-87 | a specification is refused exactly when no entries show its cards in the language |
| `TreeShape.BranchesShowTheLast` | tools/make_structure.py:160-171 | which branch and trunk stand before an entry, from the entries behind it |
| `TreeReader.ReadTreeNames` | tools/_readme_parity.py:117-144 | the names of the first block with the most rows, nothing when no block has a row |
| `TreeShorthands.LinesOfText` | tools/_readme_parity.py:130-130 | where a text is cut into lines, for every break |
| `TreeShorthands.TokensOfRow` | tools/_readme_parity.py:114-135 | behind a token the next one is taken exactly behind one of the three separators |
| `TreeShorthands.ShorthandListsBoth` | tools/_readme_parity.py:136-143 | `a.sh/.bat` lists both files, for every stem and any two extensions |
| `TreeShorthands.NoExtensionToReplace` | tools/_readme_parity.py:136-143 | behind a name without an extension the part after the slash is a name of its own |
| `TreeRoundTrip.TreeReadsBack` | tools/_readme_parity.py:131-144 | reading the printed tree gives exactly the names in its first-level entries: no branch, second-level entry or description is taken for one |
| `TreeEntries.PrintAndReadAgree` | tools/make_structure.py:158-192 | for entries of one file or of several with " / " or " + " between them, in every language: the names read are the files listed without the empty one, the names listed are those and the separators, and the two are equal exactly if no file starts with a slash and every separator is the name of a file too |
| `TreeEntries.TokensOfJoin` | tools/_readme_parity.py:114-135 | which words the row pattern takes from an entry whose words stand apart by one blank |
| `TreeEntries.SpacedEntryAgreesIff` | tools/_readme_parity.py:114-144 | such an entry is read as it is listed exactly if every word has a first segment that a word that is read shares |
| `TreeEntries.EntryAgreesIff` | tools/_readme_parity.py:114-144 | an entry of words without separators, with any white space between them, is read as it is listed exactly if its words share one non-empty first segment |
| `TreeEntries.OnlyTheFirstWordIsRead` | tools/_readme_parity.py:114-114 | which names are read from an entry without separators |
| `TreeEntries.SecondFileIsNotReadBack` | tools/make_structure.py:38-38 | the documented entry of two files: both listed, one read back |
| `TreeEntries.BothFilesAreReadBack` | docs/structure.json:828-828 | an entry of this repository: both files are read back, and the slash is listed as an empty name |
| `TreeRoundTrip.TheTreeIsRead` | tools/_readme_parity.py:122-130 | a tree with more rows than any other block is the block that is read |
| `TreeRoundTrip.CardsGiveATop` | tools/make_structure.py:109-110 | cards with rows always give a first-level entry, so the printer has a last one |
| `TreeRoundTrip.DescriptionsLineUp` | tools/make_structure.py:172-173 | all descriptions start in one column, at least three blanks behind their entry, exactly three behind the longest |
| `BackupPaths.JoinStaysInside` | src/hydra_umc_dev_server/operations.py:88-101 | an accepted manifest path names a file strictly below its root once "." and ".." are followed, and distinct paths name distinct files |
| `BackupPaths.JoinsMeet` | src/hydra_umc_dev_server/operations.py:100-101 | paths below two roots are equal only if one root contains the other |
| `BackupPaths.PlainIff` | src/hydra_umc_dev_server/operations.py:88-97 | a manifest path is accepted exactly if it consists of file names with one slash between them, where no name is empty, "." or "..", or has a slash, a back slash or a control character |
| `Backup.CreateBackup` | src/hydra_umc_dev_server/operations.py:104-121 | succeeds exactly when every path is plain and present at its turn; then the manifest matches the backup for any roots; an error names the first bad path in sorted order, says whether it is not plain or has no file, and has copied those before it |
| `Backup.VerifyBackup` | src/hydra_umc_dev_server/operations.py:160-201 | a path is verified, mismatched or missing exactly as its file compares with the recorded hash, the three lists divide the manifest, and ok means all intact and no asked-for signature failed |
| `Backup.RestoreBackup` | src/hydra_umc_dev_server/operations.py:214-240 | restores exactly when instance, schema, signature and files are right; otherwise nothing was written and the first reason is named |
| `Backup.CopyIsFaithful` | src/hydra_umc_dev_server/operations.py:104-121 | without clobbering a copy needs exactly plain paths and present files, gives the other root the original bytes and changes no other file |
| `Backup.CopyIsFaithfulIff` | src/hydra_umc_dev_server/operations.py:104-121 | for two roots and a sorted list of plain paths, every store is copied faithfully if and only if no copy writes over the source of a later one |
| `Backup.ApartCopyIsFaithful` | src/hydra_umc_dev_server/operations.py:104-121 | between roots of which neither contains the other every successful copy is faithful |
| `Backup.BackupRoundTrip` | src/hydra_umc_dev_server/operations.py:104-240 | with a collision-free hash and no clobbering a backup that still verifies restores the original bytes of every file, whatever happened in between, and touches nothing else |
| `Backup.NestedRootsLoseBytes` | src/hydra_umc_dev_server/operations.py:104-121 | a backup root inside the source root for which the copy is not faithful |
| `Versions.NextVersion` | bump_manifest_version.py:36-57 | the method with its reassignments computes the successor function |
| `Versions.NextWeighsOneMore` | bump_manifest_version.py:36-57 | for every version, shown or not: the successor counts one more in decimal weights, only a 9 or a 10 turns to 0, and the fourth component appears from 0.8.0 on |
| `Versions.SuccessorIsReading` | bump_manifest_version.py:36-57 | closed form: the k-th successor of 0.0.0 is k in three digits below 80 and k + 720 in four digits from there on |
| `Versions.OdometerSkipsNothing` | bump_manifest_version.py:31-57 | versions strictly increase, and every version made of digits appears exactly once |
| `Versions.Bump` | bump_version.py:33-43 | the method computes the three-part bump |
| `Versions.BumpAgreesIff` | bump_version.py:33-43 | the two odometers show the same first three components exactly on versions with patch at most 9 and minor at most 9 or 10, depending on the carry |
| `Versions.BumpThenSync` | bump_manifest_version.py:346-373 | a native bump of a synchronized plain version and a sync end both at the next version, exactly under that condition; otherwise the sync refuses and moves nothing |
| `Versions.SyncMovesIff` | bump_manifest_version.py:346-373 | of a plain project a sync moves exactly if the native version is the next one, or all of it but a fourth component of 0 |
| `Versions.ShownVersionsStayInStep` | bump_manifest_version.py:346-373 | every version up to 0.7.9 meets the condition |
| `Versions.SecondSyncMovesNothing` | bump_manifest_version.py:346-373 | for every style a successful sync leaves a synchronized pair, and another one moves nothing |
| `Versions.Project.Sync` | bump_manifest_version.py:346-373 | the outcome and both versions after `--sync`, and the changelog entry |
| `Versions.Project.BumpManifest` | bump_manifest_version.py:375-398 | one step of both versions from a synchronized pair only |
| `Versions.Project.BumpScript` | bump_version.py:46-111 | an ordinary step moves the native version alone, a step to four components goes through the shared utility and its changelog entry |

## Left out

- AcceptedAgainIff: takes it that a keyed hash is never the empty text, which `verify_message` would refuse.
- TheTreeIsRead: takes the fenced blocks of the README as given; finding the fences is not modelled.
- WrapText: optimality is stated for sizes that are not negative; a negative size would make longer texts narrower. Widths are reals, so rounding of floating point numbers is not modelled.
- PrintAndReadAgree: is about entries without a comma and without shorthand; what is read of shorthand such as `a.sh/.bat` is proved (`ShorthandListsBoth`), but not related to what `tree_names` lists. Entries with separators are taken to have single blanks between their words.
- PlanMigration: the privacy policy of the document, the search for checkouts below a directory and what git prints are arguments. Which paths a file system takes for the same file, links among them, is not modelled: `Resolve` follows "." and ".." as text.
- TreeNames: returns the first of the three results of `tree_names`; the second-level paths serve the check against the disk, which is not modelled.
- BackupRoundTrip: files are keys of a map, so links, directories and names that an operating system takes for the same file are not modelled.
- SQLite itself, WAL mode, busy retries, threads, sockets, subprocesses and files: a transaction is one step and a table is a map or a sequence; row ids are positions; the ranking query of pruning is its meaning row by row.
- SHA-256, HMAC, Ed25519, JSON canonicalisation, privacy globs and the recipe fingerprint: function parameters, with the one property (injective, never empty) named where it is needed; whether a signature was valid is an argument.
- Times are reals that the caller passes in; reading the clock and drawing nonces are arguments too.
- The drawing of the pictures (edges, colours, text placement), the validation of their specifications and the screenshots.
- Destination documents that are not JSON objects; a missing field and one that is not a string are both an absent one.
- Decoding of git output (newline translation) and the other git queries: their results are arguments.
- The places of version numbers in files: patterns, lock files, mirrors, build counters and versions kept in separate fields. Versions are sequences of components, so leading zeros are not kept apart.
- HTTP routes, command line, configuration, inventory, preflight, identifiers, delivery, AI provider, node channel, status lights, benchmark and reports: settled by reading one branch.
- `ConcurrencyGate`: its count and the creation of its lock file are separate steps of the file system, so its limit holds only if entering is assumed atomic.
- `ci_validate`, `_doc_policy`, `universal_readme_check` and `hydra_project_tool`: policy checks over texts and processes.
