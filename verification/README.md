# Review pipeline: model and proofs

The system turns customer reviews into cases and replies: raw reviews → reviews → analyses → cases → replies.
The PostgreSQL tables are the truth and queue messages are only hints, so every stage is a small transaction
that many workers run at any time, and background reconcilers repair what lost messages leave behind. This
project models those transactions, the workers around them and the remote review service, and proves what
holds in every run.

`dafny verify dfyconfig.toml` checks everything.

## How it is laid out

Each stage has its transactions twice: as a function on a value of the tables (the specification, about which
the lemmas speak), and as a method of a class that updates the tables in place, step by step as the source does,
and is proved equal to that function. What the functions mean is stated once more in columns
and constants alone (`Ingest.IngestExactly`, `Analyze.CommitExactly`, `Routing.RouteOutcomeExactly`,
`Replies.StatusMoves` and the like).

| File | Content |
|---|---|
| `Base` | options, sets of sequence elements, the contracts of `LIMIT` with and without `ORDER BY` |
| `RawLog` | the append-only version log and its consecutive dedupe |
| `Tables` | the rows of reviews, analyses, cases, notifications, as one database value |
| `Ingest` | the upsert with its five outcomes and its failure, the two repair scans, convergence of repair leg 1 |
| `Analyze` | the version fence and the unfenced replay branch |
| `Routing` | the decision matrix, status changes, reminders, the life of one case |
| `Notify` | the notification queue: what is sent, what of it is recorded, and draining |
| `Store` | class `Storage.Store`: the transactions and worker loops of the four stages above, in place |
| `Pipeline` | all stages and analysis workers as one state machine; invariants of every run; quiescence |
| `Provenance` | where analyses, claims and ended cases come from, in every run |
| `CaseLife` | every pipeline run projected to the life of one case |
| `Repair` | rounds of the three reconcilers and their termination |
| `ReplayRace` | a run from the empty database in which the unfenced replay write hides an edit |
| `Replies`, `ReplyService` | replies: approval, claim, dispatch, mark, reclaim; the state machine and the class |
| `ReplyOutcomes` | when a final status lasts, and what a review shows at an overwriting platform |
| `Remote` | the review service: in-place changes, sorted listing, offset tokens |
| `GoogleAdapter` | `Fetch` over a list that changes between page reads, and its exact result over one that does not |
| `CrawlJobs`, `CrawlWorker` | job histories and what a cursor promises; the job table and `runJob`, in place |
| `LaterStarts` | which cursors can still be used after a job has succeeded |
| `PageCap` | which reviews a capped fetch loses, a run in which it does, and that the loss lasts |
| `PresentVersion` | when the newest row of a review is the version the service holds, and how long a wrong one stays |
| `EndToEnd`, `Witness` | from the service to the case: what is held is what is shown, analysed and claimed; a run that meets every premise |
| `Audit` | the audit and touch triggers |

## What the model assumes

- **Messages.** Any handler may run on any id at any moment and any number of times. That contains every loss,
  repetition, delay and reordering of messages, so no queue appears in the state machines.
- **Identity.** A review is named by (source, external id), which is unique. A raw version is named by its place
  in the log; `tie` is the order of its uuid. An analysis is named by its review and its place in the history.
- **Order of versions.** Rows of one key are inserted in the order of (created_at, id) (`RawLog.InOrder`, assumed
  by `Pipeline.Allowed`). created_at is the transaction's start and the lock is taken later, so the code does not
  enforce this; `RawLog.LateLockBreaksDedupe` shows what goes wrong without it.
- **Hashes.** The input hash of the analyzer is injective, so the stored hash is modelled by its input. Content
  hashes are opaque and only compared; where a result needs it, it says that they cover the payload, update time
  included (`PageCap.OnlyByFetch`, `PresentVersion.InTurn`, `EndToEnd.HashesNamePayloads`).
- **Payloads.** What the google client can decode the google normalizer can, since both decode the same fields.
- **Numbers.** Ratings arrive as any number and are stored in tenths, rounded half away from zero, as numeric(3,1)
  does, if the result is between 0 and 10. Times are integers; a missing cursor is time 0.
- **Replay branch.** The invariant of the pipeline assumes that the analyzer's replay branch, when its write
  changes a row, would still find its analysis, that is, that lookup and write are not separated by an edit.
  `ReplayRace` shows that the code does not enforce this and what is lost.
- **Dead senders.** The exclusivity and ledger results about replies assume that reclaim only hits replies whose
  sender is dead, which is the timing premise of the replier (five minutes against a thirty-second timeout). The
  approval gate, the exactly-one-effect results and the bound on put-backs do not assume it.
- **Remote edits.** Update times at the review service rise strictly. The results of `PageCap` also use that the
  service gives each review its own id.
- **Generated ids.** Row ids come from the database and are never used again (`Audit.FreshInserts`), so a version
  number identifies a row even where rows are deleted.
- **Routing.** A routing transaction may use any analysis that was read earlier, current or not, together with any
  rule; in `Storage.Store.HandleAnalyzed` and in `Repair` the rule is the one of the risk.
- **Soft deletion** of reviews is an operator's step; no service writes `deleted_at`.

## What the code does differently from its comments

- The replay branch of the analyzer marks a review as analysed without the version fence. If an edit lands
  between its lookup and its write, the edited text is marked analysed although only the old text was, and no
  scan ever finds it (`ReplayRace.UnfencedReplayHidesAnEdit`; exact condition in `Analyze.UnfencedMarkKeepsExactly`).
- The upsert compares the rounded stored rating with the unrounded new one, so a rating that is not a whole tenth
  makes an unchanged review count as changed, and be analysed again, at each new version
  (`Ingest.SameTextReanalysedExactly`).
- A rating outside 0..10 is neither stored nor quarantined: the write fails each time. Such a version, like a newer
  version of a soft-deleted review, is flagged for repair for ever and takes a place under the limit; a pass is
  only sure to help while such rows do not fill it (`Ingest.EveryPassHelpsExactly`).
- A rule that names an unassigned role twice assigns it twice (`Routing.RolesDistinctExactly`).
- Marks have no status guard, so a reclaimed sender that is still alive can make a sent reply claimable again
  (`ReplyOutcomes.LateFailureUnsends`). A sent reply stays sent exactly when every sender that still holds it was
  accepted (`ReplyOutcomes.SentIsFinalExactly`), a failed one exactly when nobody holds it
  (`ReplyOutcomes.FailedIsFinalExactly`).
- The google adapter overwrites and does not send the idempotency key. "Sent exactly once" then means less: a
  reply that is marked sent may have been overwritten by another reply to the same review
  (`ReplyOutcomes.SentReplyIsOverwritten`); it is what the review shows exactly when no other reply was requested
  after it (`ReplyOutcomes.SentIsShownExactly`).
- A fetch that hits the page cap still advances the cursor. What it cut off is lost exactly when something it read
  could be decoded and the tail did not have its rows already (`PageCap.CappedCoverageExactly`); a run in which
  that happens is `PageCap.CappedJobLosesAReview`, and no later job repairs it (`PageCap.LostForGood`).
- A notification is sent before its result is written, and a pass stops at a result that cannot be written. While
  writing fails, the oldest message is sent again in every pass (`Notify.OldestIsSentForEver`). "At most three times"
  holds exactly when every pass can write all its results (`Notify.AtMostThreeSendsExactly`); in general the sends
  are the recorded tries plus the unwritten ones (`Notify.SendLedger`).
- Nothing orders the insertions of two workers. A reaped worker that is still alive can store an older fetch on top
  of a newer one, and the old text becomes the newest row (`PresentVersion.LateInsertHidesAnEdit`); an insertion
  does no such harm exactly when it is timely (`PresentVersion.InsertKeepsPresentExactly`). The harm lasts until the
  review changes again or is inserted by someone else (`PresentVersion.LateHarmLasts`).

## Model

| member | source | states |
|---|---|---|
| RawLog.LatestIsNewest | backend/internal/store/store.go:271-277 | the version that an insertion is compared with is one that no visible version of its key exceeds in (created_at, id) |
| RawLog.LogCollapses | backend/internal/store/store.go:257-301 | after any batches, the log of a key is the observed hash sequence with runs of equal neighbours shrunk to one |
| RawLog.InsertCollapsesExactly | backend/internal/store/store.go:271-290 | one insertion continues the collapsed sequence if and only if newest row and last inserted row agree on having the hash |
| RawLog.RevertIsKept | backend/internal/store/store.go:257-260 | A, B, A stays three versions |
| RawLog.ResultsNameTheirRows | backend/internal/store/store.go:251-301 | every returned id names a row of the input's key and hash; "inserted" means that row is new and holds the input |
| RawLog.NewRowsAreInputs | backend/internal/store/store.go:268-298 | every new row is the row of some input |
| RawLog.RepeatAddsNothing | backend/internal/store/store.go:261-301 | repeating a batch of distinct keys adds nothing and returns the same ids, none as inserted |
| RawLog.LateLockBreaksDedupe | migrations/000002_users_sources_raw.up.sql:69-87 | concrete log in which a transaction that began first locks last: the same version is stored twice in a row |
| Ingest.OutcomeMeansChange | backend/internal/store/store.go:373-468 | when each outcome occurs, exactly, a failed write included; an existing row stays as it is exactly in the refusing ones; text and rating kept means status kept |
| Ingest.IngestExactly | backend/internal/store/store.go:393-468 | when the row of a review is written, exactly, and every column it then has: store kept unless replaced, status back to new unless text and rating stay, version + 1 |
| Ingest.AcknowledgedExactly | backend/cmd/ingestion/main.go:113-166 | when a delivery of review.raw is acknowledged, exactly, in the fields of version and row |
| Ingest.TenthsAreNearest | migrations/000009_dedupe_semantics_quarantine.up.sql:16 | the stored rating is the nearest tenth, of two the one further from zero |
| Ingest.FitsExactly | migrations/000009_dedupe_semantics_quarantine.up.sql:17-18 | a rating can be stored if and only if it lies strictly between -0.05 and 10.05 |
| Ingest.UnreflectedExactly | backend/internal/store/store.go:481-510 | the first scan finds a version if and only if it is its key's newest before the cutoff, not quarantined, and its review points elsewhere |
| Ingest.StaleNewExactly | backend/internal/store/store.go:515-534 | the second scan finds a review if and only if it is live, new and last written before the cutoff |
| Ingest.SameTextReanalysedExactly | backend/internal/store/store.go:441-478 | a newer version with the same text and rating counts as changed if and only if the rating is not a whole tenth |
| Ingest.NoRollback | backend/cmd/ingestion/main.go:113-166 | any ingestion of any version keeps every review showing the version it points at, never moves to an older one, never touches a deleted one |
| Ingest.FlaggedIsSettled | backend/cmd/ingestion/main.go:86-97 | ingesting a flagged version points its review at it or quarantines it, or (deleted review, rating out of range) changes nothing |
| Ingest.OldPickIsHarmless | backend/cmd/ingestion/main.go:86-97 | a flagged version older than the reflected one changes nothing, and that reflected one is younger than the scan's age limit |
| Ingest.Leg1Effect | backend/cmd/ingestion/main.go:83-97 | leg 1 clears exactly the flags of the live versions it picked |
| Ingest.PassProgress | backend/cmd/ingestion/main.go:83-97 | a pass settles at least limit minus the versions that cannot be settled, or everything that can |
| Ingest.ReconcileConverges | backend/cmd/ingestion/main.go:83-97 | when all n flagged versions can be settled, ceil(n / limit) passes, whatever they pick, leave every key at its newest version or with that version quarantined |
| Ingest.EveryPassHelpsExactly | backend/internal/store/store.go:481-510 | while versions that can be settled are flagged, every possible pass makes progress if and only if those that cannot do not fill the limit |
| Analyze.FindCurrentExactly | analyzer/worker.py:137-147 | the idempotence test finds an analysis if and only if the current one is of the row's text and rating by that model |
| Analyze.CommitKeeps | analyzer/worker.py:153-195 | the fenced commit of an honest snapshot keeps the analysis invariant |
| Analyze.CommitExactly | analyzer/worker.py:153-195 | when the fence lets the answer through, exactly; the appended analysis has the risk, model, text and rating given and is the only current one |
| Analyze.CommitAdvances | migrations/000001_audit_foundation.up.sql:60-68 | across a commit, equal versions mean equal rows and no row disappears |
| Analyze.IngestAdvances | migrations/000001_audit_foundation.up.sql:60-68 | the same across any ingestion |
| Analyze.HonestyLasts | analyzer/worker.py:155-170 | a snapshot whose version is still the row's holds the row's text and rating, whatever happened since the read |
| Analyze.IngestKeepsAnalyses | backend/internal/store/store.go:441-466 | ingestion never leaves a reviewed status on text or rating that were not analysed |
| Analyze.SoftDeleteKeeps | analyzer/worker.py:130-132 | a soft delete keeps the analysis invariant |
| Analyze.UnfencedMarkKeepsExactly | analyzer/worker.py:141-146 | the unfenced write keeps the invariant if and only if it changes nothing or the branch's test still succeeds on the present row |
| Analyze.UnanalysedIsVisible | backend/internal/store/store.go:512-534 | every live review without an analysis of its present text and rating is found by the stale-new scan |
| Routing.EscalationAndReminderBounds | backend/internal/store/routing.go:136-170 | over any life of a case: escalations ≤ 2·(reopened+1) and reminder rounds ≤ 3·(reopened+1) |
| Routing.BoundsAreTight | backend/internal/store/routing.go:262-318 | both bounds are reached without a reopening |
| Routing.DueTimeIsLastReset | backend/internal/store/routing.go:99-170 | rule and due time are those of the last creation, escalation or reopening, and of nothing else |
| Routing.ReplaysChangeNothing | backend/internal/store/routing.go:131-134 | dropping all routings of the already claimed analysis from a life changes neither case, roles nor notifications |
| Routing.NoticeLedger | backend/internal/store/routing.go:176-220 | routing notifications equal the sum of the rules' role counts over creations, escalations and reopenings |
| Routing.MissingMembers | backend/internal/store/routing.go:181-205 | the roles added are exactly those of the rule that have no assignment |
| Routing.RolesDistinctExactly | backend/internal/store/routing.go:176-220 | assigned roles stay distinct if and only if the rule names no unassigned role twice |
| Routing.RolesHold | backend/internal/store/routing.go:176-220 | assigned roles only grow, stay distinct and include every role of the case's rule |
| Routing.RouteKeeps | backend/internal/store/routing.go:99-170 | after routing, the case claims that analysis and is at least as risky |
| Routing.RouteOutcomeExactly | backend/internal/store/routing.go:99-170 | when each of the five outcomes occurs, exactly, in the fields of case and risk, and every column of the case it leaves |
| Routing.RouteTellsExactly | backend/internal/store/routing.go:176-220 | who is notified of what and who is assigned: all roles of the rule on creation, reopening and escalation, otherwise nobody |
| Routing.DeliveryExactly | backend/cmd/routing/main.go:119-156 | a delivery routes the newest current analysis of a live review by the rule of its risk, or changes nothing |
| Routing.UnroutedExactly | backend/internal/store/routing.go:236-259 | the scan finds a review if and only if it is live and its newest current analysis is older than the cutoff and unclaimed |
| Routing.StatusExactly | backend/internal/store/api.go:408-445 | which manual transitions go through, exactly; the first resolution is stamped |
| Routing.RemindExactly | backend/internal/store/routing.go:262-318 | a case is reminded if and only if it is open or in progress, overdue and not reminded; what its roles are told |
| Routing.StatusAndReminderKeep | backend/internal/store/api.go:418-445 | status changes and reminders leave every claim valid |
| Notify.AtMostThreeTries | backend/internal/store/routing.go:369-385 | whatever the sender does, at most three results are recorded for a notification |
| Notify.SendLedger | backend/cmd/routing/main.go:178-193 | in every run the sends of a notification are the tries its row shows plus those whose result was not written, so at most three plus the latter |
| Notify.OneUnwrittenPerPass | backend/cmd/routing/main.go:183-188 | a pass sends at most one message whose result it cannot write |
| Notify.OldestIsSentForEver | backend/cmd/routing/main.go:183-188 | while no result can be written, n passes send the oldest pending message n times and leave its row as it was |
| Notify.AtMostThreeSendsExactly | backend/cmd/routing/main.go:178-193 | over all runs in which each pass can write b results, nothing is sent a fourth time if and only if b covers a whole pass |
| Notify.Drains | backend/cmd/routing/main.go:178-193 | n pending notifications are all sent or failed after 3·ceil(n / limit) complete passes, whatever arrives later and however many passes stop early in between |
| Pipeline.RunKeepsInv | backend/internal/store/store.go:393-468 | intake, analysis, routing and worker invariants hold in every reachable state |
| Pipeline.NeverRollsBack | backend/internal/store/store.go:393-468 | across any run no review disappears, points at an older version, leaves deletion, or reuses a version number |
| Pipeline.EveryReviewShowsItsVersion | backend/cmd/ingestion/main.go:113-166 | in every run author, rating, text, posted time and url of a review are those of the version it points at |
| Pipeline.FenceHoldsInEveryRun | analyzer/worker.py:119-199 | in every run: at most one current analysis; status past new means it is of the present text and rating; otherwise the stale-new scan sees the review |
| Pipeline.CaseCoversItsClaim | backend/internal/store/routing.go:131-170 | in every run a case is at least as risky as the analysis it claims |
| Pipeline.QuietReview | backend/internal/store/routing.go:236-259 | a live review that no scan finds has one current analysis of what it shows, claimed by its case |
| Pipeline.QuietMeansConsistent | backend/internal/store/store.go:481-534 | in every reachable state where the three scans are empty, all reviews, analyses and cases agree with the newest versions, whatever happened to the messages |
| Provenance.AnalysisComesFromAnswer | analyzer/worker.py:149-195 | in every run each analysis has the risk of one answer and the model, text and rating that its worker held for this review |
| Provenance.SnapshotComesFromRead | analyzer/worker.py:119-136 | in every run what a worker holds was read from the live row of that review, all at one moment |
| Provenance.CaseCoversTheAnswer | backend/internal/store/routing.go:131-170 | after a quiet run the case of a live review is at least as risky as the answer given for exactly the text and rating shown |
| Provenance.ClaimComesFromRouting | backend/internal/store/routing.go:99-170 | in every run the analysis of a case was given to it by a routing of that analysis |
| Provenance.CaseStep | backend/internal/store/routing.go:131-170 | one step of the pipeline: a case that is given an analysis it did not claim is open or in progress afterwards; only a manual change moves the status otherwise |
| Provenance.EndedAfterItsClaim | backend/internal/store/routing.go:136-166 | in every run a resolved or closed case was set resolved after it was given the analysis it claims: later ones reopen it |
| Provenance.EndedCaseSawThePresentText | backend/internal/store/routing.go:136-166 | after a quiet run a resolved or closed case was resolved after an analysis of the text and rating shown was routed |
| CaseLife.RunProjects | backend/internal/store/routing.go:99-170 | a pipeline run, seen from one review, is a life of its case |
| CaseLife.CaseAfterAnyRun | backend/internal/store/routing.go:99-318 | bounds, due time, notification count and roles for the case of any review after any pipeline run |
| Repair.AnalyzeAllEffect | analyzer/worker.py:119-199 | handling reviews that the stale-new scan found removes exactly them from it and flags no raw version |
| Repair.RouteAllEffect | backend/cmd/routing/main.go:159-176 | routing the analyses that the unrouted scan found removes exactly them from it |
| Repair.RoundLowersBacklog | backend/cmd/ingestion/main.go:83-111 | a round of the three reconcilers strictly lowers (unreflected, new, unrouted) lexicographically unless all are zero |
| Repair.RepairTerminates | backend/cmd/routing/main.go:159-176 | with no new versions, u + 2·(number of keys) rounds empty the three scans |
| ReplayRace.UnfencedReplayHidesAnEdit | analyzer/worker.py:202-210 | a run from the empty database, allowed up to its last event: lookup, edit, mark leaves unanalysed text that no scan finds |
| Storage.Store.InsertRawReviews | backend/internal/store/store.go:261-301 | the loop over the log computes the batch insertion that `RawLog` reasons about |
| Storage.Store.UpsertReview | backend/internal/store/store.go:393-468 | the transaction leaves exactly the specified reviews and outcome, or fails on a rating out of range |
| Storage.Store.HandleRaw | backend/cmd/ingestion/main.go:113-166 | effect, acknowledgement and messages of one delivery; outright: review.created is published if and only if the queue is up and the row was inserted, moved here with another text or rating, or already pointed here; with the queue down such a delivery is not acknowledged |
| Storage.VisitAnnounces | backend/cmd/ingestion/main.go:151-165 | one ingestion announces a review if its row is new or has another text or rating |
| Storage.Leg1Announces | backend/cmd/ingestion/main.go:83-97 | leg 1 of a pass announces every review that it adds or whose text or rating it changes |
| Storage.AnnouncedExactly | backend/cmd/ingestion/main.go:98-110 | leg 2 announces a review if and only if it was picked and its publish succeeds |
| Storage.Store.FindUnreflectedRaws | backend/internal/store/store.go:481-510 | returns limit of the flagged versions, or all of them |
| Storage.Store.FindStaleNewReviews | backend/internal/store/store.go:515-534 | returns limit of the live reviews still new, or all of them |
| Storage.Store.Republish | backend/cmd/ingestion/main.go:98-110 | publishes for each review whose publish succeeds, in order, and counts them |
| Storage.Store.ReconcileOnce | backend/cmd/ingestion/main.go:83-111 | leg 1 ingests a pick of the flagged versions, leg 2 publishes for a pick of the stale new reviews; tables, messages and both counts are exact |
| Storage.Store.CommitAnalysis | analyzer/worker.py:153-195 | the fenced transaction leaves exactly the specified rows and result; a committed analysis is the last one, current, with the given risk, model, text and rating |
| Storage.Store.HandleCreated | analyzer/worker.py:119-199 | with any ingestions during the slow call: exact effect, invariants kept; a committed analysis is the last one, has the given risk and model and the row's present text and rating |
| Storage.Store.AskModel | analyzer/worker.py:149-199 | slow call, commit and publish: what is committed is the answer to the text and rating that the row then has |
| Storage.Store.CommitHonest | analyzer/worker.py:153-195 | the commit of an honest snapshot keeps the invariants |
| Storage.Store.MarkReplay | analyzer/worker.py:202-210 | the unfenced mark changes exactly a live row that is still new |
| Storage.Store.Ingesting | backend/cmd/ingestion/main.go:113-166 | any ingestions during the slow call keep the invariants and the snapshot honest, and touch no analysis |
| Storage.Store.EnsureAssignmentsAndNotify | backend/internal/store/routing.go:176-220 | missing roles are appended in order and every role of the rule is notified |
| Storage.Store.RouteAnalysis | backend/internal/store/routing.go:99-173 | the transaction leaves exactly the specified case, assignments, notifications and outcome |
| Storage.Store.HandleAnalyzed | backend/cmd/routing/main.go:119-156 | effect, acknowledgement and publishing of one review.analyzed delivery |
| Storage.Store.FindUnroutedAnalyses | backend/internal/store/routing.go:236-259 | returns limit of the unclaimed current analyses, or all of them |
| Storage.Store.ReconcileUnrouted | backend/cmd/routing/main.go:159-176 | routes a pick of the unclaimed analyses in turn; all are counted as done when rules and queue allow |
| Storage.Store.UpdateCaseStatus | backend/internal/store/api.go:408-445 | exactly the allowed transitions change the case; the first resolution stamps the response time |
| Storage.Store.DueSLAReminders | backend/internal/store/routing.go:262-318 | reminds the longest overdue unlocked cases, each once per window |
| Storage.DuePicksExactly | backend/internal/store/routing.go:262-290 | which cases a pass picks: due and unlocked, by rising due time, left out only for others not due later |
| Base.EarliestFirstExactly | backend/internal/store/routing.go:262-290 | an ordered pick rises, and nothing left out is earlier |
| Storage.Store.RemindCase | backend/internal/store/routing.go:290-313 | notifies every role of the case and marks it, and touches no other case |
| Storage.Store.PendingNotifications | backend/internal/store/routing.go:347-366 | returns exactly the oldest pending notifications up to the limit, oldest first |
| Storage.PendingPicksExactly | backend/internal/store/routing.go:347-366 | a pass picks pending messages in table order and leaves one out only when earlier ones fill the limit |
| Storage.Store.FinishNotification | backend/internal/store/routing.go:369-385 | a success ends in sent; a failure counts a try and the third one ends in failed |
| Storage.Store.DeliverNotifications | backend/cmd/routing/main.go:178-193 | exactly which messages one pass hands to the sender, oldest first, and which results it records, when writing a result may fail |
| Replies.NothingUnapprovedIsSent | backend/internal/store/reply.go:86-226 | in every run, late writers included: nothing rejected or gated but unapproved reached the platform; approved_at is set exactly in approved, sending, sent, failed |
| Replies.ExactlyOneEffect | backend/cmd/replier/main.go:128-155 | in every run a receiver that ignores known idempotency keys carries at most one effect of a reply, with the reply's content |
| Replies.SentIsOnThePlatform | backend/internal/store/reply.go:202-212 | a reply marked sent has its effect at a receiver that ignores known keys; an overwriting one shows some reply of that review |
| Replies.ContentIsTheOneCreated | backend/internal/store/reply.go:106-114 | review and content of a reply are for ever those it was created with |
| Replies.LedgerBalances | backend/internal/store/reply.go:159-226 | with dead-sender reclaims: one live sender a reply, claims = retries + in flight or sent, final statuses are final |
| Replies.ClaimsAreAccountedFor | backend/internal/store/reply.go:159-226 | from the empty table: committed claims = retry_count + [sending] + [sent] |
| Replies.ReclaimIsBounded | backend/internal/store/reply.go:232-245 | in every run reclaim puts a reply back at most four times |
| Replies.StatusMoves | backend/internal/store/reply.go:86-267 | every way in which one step can change a reply, column by column |
| Replies.CreateExactly | backend/internal/store/reply.go:84-127 | when a reply is created, exactly, and whether it waits for approval |
| ReplyOutcomes.SentIsFinalExactly | backend/internal/store/reply.go:202-226 | a sent reply stays sent in every continuation if and only if every live sender that holds it was accepted |
| ReplyOutcomes.FailedIsFinalExactly | backend/internal/store/reply.go:202-226 | a failed reply stays failed in every continuation if and only if no live sender holds it |
| ReplyOutcomes.FailedIsLeftAlone | backend/internal/store/reply.go:159-212 | while a reply is failed and nobody holds it, it is neither claimed nor requested |
| ReplyOutcomes.RefusedIsFailedForGood | backend/cmd/replier/main.go:136-149 | with dead-sender reclaims before it: a reply that is refused on its last delivery, or whose source cannot reply, is failed for good and never claimed or requested again |
| ReplyOutcomes.RejectedIsFinal | backend/internal/store/reply.go:142-156 | a rejected reply stays rejected in every run, late writers included |
| ReplyOutcomes.LateFailureUnsends | backend/internal/store/reply.go:214-226 | a run from the empty table: a reclaimed sender that is alive makes a sent reply claimable again |
| ReplyOutcomes.SlotHoldsLastRequest | backend/internal/adapter/google/google.go:161-207 | in every run, what a review shows at an overwriting platform is the last request made for it |
| ReplyOutcomes.SentIsShownExactly | backend/internal/adapter/google/google.go:161-207 | a sent reply is what its review shows there if and only if no other reply of the review was requested after its last request |
| ReplyOutcomes.OnlyReplyIsShown | backend/cmd/mockgoogle/main.go:158-178 | the only reply ever requested for its review is shown, with its content, once it is sent |
| ReplyOutcomes.SentReplyIsOverwritten | backend/cmd/mockgoogle/main.go:158-178 | a run from the empty table: two replies of one review are marked sent and only one is shown |
| ReplyService.ReplyStore.CreateReply | backend/internal/service/reply.go:13-23 | checks in order, row and message of a new reply |
| ReplyService.ReplyStore.ApproveReply | backend/internal/service/reply.go:26-37 | only a pending reply is approved and queued |
| ReplyService.ReplyStore.RejectReply | backend/internal/store/reply.go:143-156 | only a pending reply is rejected |
| ReplyService.ReplyStore.ClaimReplyForSend | backend/internal/store/reply.go:159-200 | an approved reply goes to exactly one sender, with the content created; a missing source row rolls the claim back |
| ReplyService.ReplyStore.DispatchReply | backend/cmd/replier/main.go:159-172 | one request reaches the platform, which ignores a known idempotency key and overwrites the review's slot |
| ReplyService.ReplyStore.MarkReplySent | backend/internal/store/reply.go:203-212 | marks sent without a status guard |
| ReplyService.ReplyStore.MarkReplyFailed | backend/internal/store/reply.go:215-226 | counts a retry; failed at the last attempt, otherwise back to approved, and nothing else changes |
| ReplyService.ReplyStore.SendReply | backend/cmd/replier/main.go:128-155 | one delivery, with claim errors, deaths and marks that cannot be written, is the run of claim, dispatch and mark steps; outright: the status the reply ends with (sent, failed, approved or left in sending) and when it is acknowledged |
| ReplyService.SendOutcome | backend/cmd/replier/main.go:128-155 | the same for the state machine: status, retries, and the one request of a delivery |
| ReplyService.ReplyStore.AskAndMark | backend/cmd/replier/main.go:142-155 | dispatch and mark are the steps of that run |
| ReplyService.ReplyStore.MarkFailedOrDie | backend/cmd/replier/main.go:140-149 | a failure mark that cannot be written leaves the row to the reclaimer |
| ReplyService.ReplyStore.ReclaimStuckReplies | backend/internal/store/reply.go:232-267 | reclaims the longest untouched unlocked replies past the cutoff and returns exactly those put back |
| ReplyService.ReplyStore.StaleApprovedReplies | backend/internal/store/reply.go:272-297 | returns the oldest approved replies past the cutoff, up to the limit |
| ReplyService.UntouchedExactly | backend/internal/store/reply.go:272-297 | which rows the two reply scans may pick: those of the status, last written before the cutoff |
| ReplyService.ReplyStore.ReconcileReplies | backend/cmd/replier/main.go:106-126 | only reclaiming changes rows; queued again is exactly what was put back and what was found idle, where the queue takes it |
| Remote.SortedUnique | backend/cmd/mockgoogle/main.go:130-136 | a listing sorted by distinct update times is determined by its elements |
| Remote.AddMovesToFront | backend/cmd/mockgoogle/main.go:87-105 | a new review goes in front of the listing |
| Remote.EditMovesToFront | backend/cmd/mockgoogle/main.go:107-119 | an edited review leaves its place and goes in front |
| Remote.ChangeKeepsSeen | backend/cmd/mockgoogle/main.go:130-156 | after a change nothing wanted lies before an offset unseen |
| Remote.ChangesAreLater | backend/cmd/mockgoogle/main.go:87-119 | after any changes, what is new at the service is later than the old clock |
| Remote.Server.Live | backend/cmd/mockgoogle/main.go:87-119 | customers add and edit reviews in place |
| Remote.Server.List | backend/cmd/mockgoogle/main.go:130-156 | one page of the sorted listing and the next offset |
| GoogleAdapter.ScanPage | backend/internal/adapter/google/google.go:123-151 | exactly what a page contributes, early stop included: the readable entries with a star of at most the maximum that are newer than `since`; everything wanted up to the new cursor and before the offset was returned |
| GoogleAdapter.ReadPage | backend/internal/adapter/google/google.go:112-156 | the same across changes before the read, and the next offset; when paging ends, everything wanted was returned |
| GoogleAdapter.Fetch | backend/internal/adapter/google/google.go:104-160 | without a page-cap hit every stored review that is readable, has a star of at most the maximum and changed in (since, cursor] was returned in its present version; only such are, each a version of a review still held; what changed unseen is later than the cursor; over an unchanging service the result is exact |
| GoogleAdapter.CapHitExactly | backend/internal/adapter/google/google.go:111-131 | a fetch of an unchanging service hits the cap if and only if it holds more than 1000 entries and no readable one of the first 1000 is at most `since` |
| CrawlJobs.LastSucceededIsLatest | backend/internal/store/store.go:132-148 | the cursor handed over is that of a succeeded job that finished last, or missing when none succeeded |
| CrawlJobs.InsertCovers | backend/cmd/worker/main.go:92-127 | inserting a fetch without cap hit on top of a covered cursor covers the new cursor |
| CrawlJobs.RunKeepsCoverage | backend/cmd/scheduler/main.go:123-151 | every job's cursor keeps its promise through failed, reaped, retried, overlapping and late jobs |
| CrawlJobs.SucceededMeansCovered | backend/cmd/worker/main.go:92-127 | in every history: below the cursor of a succeeded job with no cap hit behind it, every readable review with a star of at most the maximum has a row of its present version |
| PageCap.StillFetchKeepsPromise | backend/internal/adapter/google/google.go:104-160 | the exact result over an unchanging service keeps the promise on which job histories rely |
| PageCap.CappedCoverageExactly | backend/internal/adapter/google/google.go:111-114 | after a capped fetch on top of a covered cursor, the new cursor is covered if and only if nothing read could be decoded or every matching entry behind the cut had its row |
| PageCap.FirstJobExactly | backend/cmd/worker/main.go:92-127 | the same for the first job of any service, as a run that succeeds |
| PageCap.CappedJobLosesAReview | backend/cmd/worker/main.go:98-102 | a run from an empty log whose capped job succeeds and leaves a matching review without a row |
| LaterStarts.StartsStayPast | backend/internal/store/store.go:132-205 | once a job has succeeded past a time and every other start is past it or over, that stays so in every step |
| PageCap.LostForGood | backend/cmd/scheduler/main.go:123-151 | any capped job: an entry behind the cut without a row has none after the success, and while later starts are past it never gets one, unless that version arrives by another way |
| PageCap.FirstJobLosesForGood | backend/cmd/scheduler/main.go:123-151 | the same for what the first job of a service lost, in every later history |
| PresentVersion.LatestAfterBatch | backend/internal/store/store.go:261-301 | the newest row of a key after a batch is what the batch has last for it, if anything |
| PresentVersion.InsertKeepsPresentExactly | backend/internal/store/store.go:261-301 | an insertion keeps every recorded present version the newest row if and only if it brings no other version of it last |
| PresentVersion.SucceededMeansPresent | backend/cmd/worker/main.go:92-127 | in every history of such insertions: below a clean succeeded cursor the newest row of each matching review is the version the service holds |
| PresentVersion.HiddenStaysHidden | backend/cmd/worker/main.go:104-109 | a wrong newest row stays while all later starts are past the version held: no fetch brings the review until it changes or is inserted by someone else |
| PresentVersion.LateInsertHidesAnEdit | backend/cmd/worker/main.go:104-109 | an allowed history in which a reaped worker stores an older fetch last, and the old text is the newest row |
| PresentVersion.LateHarmLasts | backend/cmd/worker/main.go:104-116 | after that history, whatever jobs follow, the old text stays the newest row until the review is touched again |
| EndToEnd.RunKeepsPayloads | backend/internal/adapter/google/google.go:142-151 | in every crawl history each row carries the normal form of the payload that its hash names |
| EndToEnd.ServiceIsShown | backend/internal/store/store.go:481-534 | a timely crawl history and a pipeline run whose scans are empty: every readable review with a star of at most the maximum, changed up to a clean succeeded cursor, is in the tables with the author, rating, text and time the service holds, and if live analysed and claimed |
| Witness.FetchedReviewIsShown | backend/internal/normalize/normalize.go:39-66 | a crawl and a pipeline run that meet all those premises, ending with a fetched review, its star equal to the maximum, shown, analysed and claimed |
| CrawlWorker.CrawlStore.RunJob | backend/cmd/worker/main.go:64-129 | one delivery, whatever fails from loading to finishing: job row, raw log, stats and acknowledgement are exact; the coverage invariant holds again |
| CrawlWorker.CrawlStore.Claim | backend/internal/store/store.go:194-205 | only a pending or failed job is claimed |
| CrawlWorker.CrawlStore.Finish | backend/internal/store/store.go:214-231 | writes status and cursor of one job without a status guard |
| CrawlWorker.CrawlStore.FetchFor | backend/cmd/worker/main.go:92-97 | after the fetch the old cursor is still good and the worker holds a complete result |
| CrawlWorker.CrawlStore.StoreAndFinish | backend/cmd/worker/main.go:103-129 | what follows a fetch: insertion, publishes and finish, each of which may fail |
| CrawlWorker.CrawlStore.StoreAndPublish | backend/cmd/worker/main.go:104-124 | after the insertion both the old and the fetched cursor are good, whether or not publishing succeeds |
| CrawlWorker.CrawlStore.ReapStaleJobs | backend/internal/store/store.go:236-249 | exactly the stale running or pending jobs become failed, cursors untouched, and are counted |
| CrawlWorker.CrawlStore.ScheduleOne | backend/cmd/scheduler/main.go:123-159 | a job is created only when none is open and the schedule is due, at the cursor of a succeeded job that finished last, and queued if the queue takes it |
| CrawlWorker.DueExactly | backend/cmd/scheduler/main.go:123-159 | a job is due if and only if none is pending or running and the schedule's next time after the newest one has come, or there is none |
| CrawlWorker.StaleCountExactly | backend/internal/store/store.go:236-249 | how many jobs a reap counts: running ones started, and pending ones created, before the limits |
| CrawlWorker.EndedExactly | backend/cmd/worker/main.go:64-129 | the row of a claimed job after each ending, column by column |
| CrawlWorker.CrawlStore.PublishAll | backend/cmd/worker/main.go:112-124 | counts inserted and duplicate results, up to the one whose publish fails |
| CrawlWorker.InsertCounts | backend/cmd/worker/main.go:105-118 | the log grows by the number of results marked inserted |
| Audit.LogRebuildsTables | migrations/000001_audit_foundation.up.sql:35-68 | folding the log rebuilds every table; each old image is the record's previous new image; version = 1 + updates since insertion |
| Audit.ReplayIsPreviousImage | migrations/000001_audit_foundation.up.sql:35-58 | folding the whole log gives each record its last new image |
| Audit.EqualVersionsEqualRows | migrations/000001_audit_foundation.up.sql:60-68 | while a row is not deleted, an equal version means an equal row |
| Audit.GeneratedIdsKeepVersions | migrations/000001_audit_foundation.up.sql:60-68 | with generated ids, the same for every row that still exists, deletions or not; a deleted one never comes back |
| Audit.AuditedTables.Apply | migrations/000001_audit_foundation.up.sql:35-88 | a row statement with its triggers does what the specification of the audited tables says |

## Left out

- Admin and mobile UI, HTTP handlers, login and JWT, webhook parsing, OAuth: I/O and rendering around the core.
- The queues themselves: only their effect (any handler at any time) and `isFinal` as a parameter are modelled.
- The analysis itself: risk is an arbitrary parameter of each analysis; prompts, word lists and overrides are not modelled.
- SQL text: locks and isolation appear as atomic steps; `LIMIT` without order is an arbitrary pick.
- Normalisers: a payload is given together with its normalised form, or with none if it cannot be normalised.
- Routing rules as rows: a case carries the rule it was routed with as a value; disabling a rule is a missing entry.
- Store and location lookup of a review: a parameter of each ingestion. Webhook sources share the ingestion model only.
- Statuses that no service writes (draft replies, reviews in analyzing, cased or ignored) and `deleted_at` on anything but reviews.
- Texts: message bodies, error strings, reply urls, platform answers and the approver's name.
- Leader election of the scheduler and the text of cron expressions: a schedule is a function from a time to the next one, and in the state machine a schedule step may happen at any time.
- "At most one open job per source and location" is not stated: a failed job may be claimed again after a new one was created.
- Starvation freedom of the idle-reply and stale-new scans under `LIMIT`: re-publishing does not move rows out of the window.
- Several locations of one source, and the reply text shown inside listings of the review service.
- Remote.ChangeKeepsSeen: assumes strictly rising update times, because equal ones make the listing order arbitrary.
- Notify.Drains: rows are kept in created_at order with ties broken in one fixed way, because the query does not break ties.
- Repair.RepairTerminates: is for stores without soft-deleted reviews, with ratings in range and with a rule for each risk, because otherwise the scans never become empty.
- Storage.Store.FindUnreflectedRaws: does not leave out the versions of sources that were themselves soft-deleted; no service deletes a source.
- Storage.Store.HandleCreated: only ingestions happen during the slow call here; soft deletes and other commits in between are steps of the pipeline's state machine.
- Replies.SentIsOnThePlatform: names the sent reply only for a receiver that knows idempotency keys; the overwriting one is the subject of `ReplyOutcomes`.
