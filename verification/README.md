# A model of postbud

postbud accepts mail from several sending systems, keeps it in a Postgres queue, hands it to a Postfix
relay, and learns afterwards what became of it: from bounces, and from reports of the relay's own queue.
These files model what it does with its rows, its wire formats and its clocks, and prove what its
documentation and its comments rely on. `dafny verify dfyconfig.toml` checks everything.

## How the model is laid out

**The queue.** `Schema` holds the rows; a table is a sequence and a row's id is its index, since only
attachments are ever deleted. `Queue`, `SuppressionList`, `Reconcile` and `Attachments` say what one SQL statement or one
transaction does to the tables. `Database.Store` is the same in the program's own form: an object whose
methods update its tables in place, with the program's loops, each proved to do what those functions say.

**Any number of workers.** `Protocol` is a state machine over the tables, the workers' jobs, the relay's
own queue and the snapshots taken of it. A worker claims, hands over and records in separate steps, may
vanish between any two of them, and nothing in the machine stops it from recording late.

- `Safety` proves what every run keeps with no assumption about timing.
- `Bounces` joins the text of a bounce to the silence that follows it.
- `Lease` adds the assumption that a worker records within the ten-minute claim timeout or never. It proves
  that no live worker's message is then taken from it, that the delivery log is exactly each message's
  history, and the length of the retry window.
- `RelayTruth` assumes that a snapshot is the relay's whole queue and arrives within the grace. Without a word
  about workers it proves exactly when the label "delivered" is always true, and that under the lease it is.
- `LateSteps` has concrete runs that break one assumption each and the damage that follows, and proves that the
  grace is exactly the delay that is safe.

**The wire.** `Showq` reads Postfix's NUL-framed answer, `Json` prints and reads JSON text (RFC 8259), and
`QueueReport` joins them: what showq says is what the ingest endpoint gets. `Dsn` reads delivery status
notifications (RFC 3464, RFC 3463) in one pass and is compared with a meaning given in two passes;
`DsnSpacing` is about folding, case and spacing, and `DsnReading` about which text, codes and words come to what.

**The administration side.** `AdminUsers` interleaves transactions at every row lock; `TenantDomains` does
the same for the log of sending domains; `Paging` follows list pages while the table changes under them;
`ReportDomains` names the DMARC destinations that must consent (section 7.1 of RFC 7489). `OidcSha256` is
the hash the admin page computes in JavaScript arithmetic, compared with `Fips180`, the standard.
`Worker` is the bounded drain of a claimed batch, `Retry` the schedule.

## What the code does not promise

- The statements that record an outcome select their row by id alone
  (`crates/postbud-db/src/message.rs:264-374`). A worker that records after its claim was retaken overwrites
  a finished row: `LateSteps.LateRecordOverwrites`, and `Lease.FenceIsExact` for exactly when a record keeps
  the history right. It can also put the id of a copy the relay still holds under the label "delivered":
  `LateSteps.LateRecordFalsifiesDelivered`, and `RelayTruth.LabelsTrueIff` for exactly when labels stay true.
- The grace of 15 seconds leaves nothing over: complete snapshots are safe if and only if they arrive within it
  (`LateSteps.GraceIsExact`, with the run `LateSteps.LateReportFalsifiesDelivered` one microsecond past it).
- The comment on the schedule says "~49 h" (`crates/postbud-core/src/retry.rs:35`). The worker asks for the
  delay after counting the attempt it has just made, so the first entry is never used and the delays that are
  add up to 253,200 s, some 70 hours (`Retry.FullSpan`, `Lease.RetryWindow`).
- The migration for admin users says the first row makes the table authoritative
  (`crates/postbud-db/migrations/0002_admin_users.sql:10-12`). That holds once there has been an admin
  (`AdminUsers.BootstrapStaysClosed`); a table that only ever held a viewer falls back to the environment's
  list when that viewer ends (`AdminUsers.CommitReopensBootstrap`, both directions, and the run
  `AdminUsers.ViewerReopensBootstrap`).
- A snapshot replayed at another time leaves a message's timestamp alone if and only if the entries under its
  queue id agree (`Reconcile.ReplayLater`; `Reconcile.ReplayOfRepeatedIdRestamps` is an input where they do not).
- Content is not kept for ever: the purge blanks what was completed long enough ago. `Safety.SubmissionStays` and
  `Safety.ContentIsRetained` say what holds until then.
- `sha256` handles messages up to 2^31 - 9 bytes and no longer ones (`OidcSha256.AdmittedLengths`).

## Model

| member | source | states |
|---|---|---|
| Safety.EveryRunIsSane | crates/postbud-db/src/message.rs:66-400 | in every run, late recorders included: at most 9 attempts and at most 8 while queued, one row per tenant and key, one active suppression per scope and address |
| Safety.RunKeepsSane | crates/postbud-db/src/message.rs:66-400 | the invariant behind it holds after any run from any state that has it |
| Safety.RunGrows | crates/postbud-db/src/message.rs:264-480 | no run shortens the log or makes a finished or suppressed message queued again; content and files of each message are as before, or a purge has taken its bodies and all its files, once and for good |
| Safety.Resubmission | crates/postbud-db/src/message.rs:79-112 | resubmitting under a key, after any run, returns the first id and writes nothing; stored are the first content and files, or the content without bodies and no files if a purge came between |
| Safety.SubmissionIsStored | crates/postbud-db/src/message.rs:79-132 | a new submission gets a new row with its content and its files in order |
| Safety.SubmissionStays | crates/postbud-db/src/message.rs:66-480 | after any run: unpurged, and so whenever it is queued, a message has the submitted content and files; purged, it has no bodies and no files and the rest of its content |
| Safety.SubmissionIsDelivered | crates/postbud-db/src/message.rs:66-259 | every claim of the message, after any run with any purges, finds exactly the submitted content and files in the submitted order |
| Safety.ContentIsRetained | crates/postbud-db/src/message.rs:447-480 | if no purge of a run is for fewer than `days`, a message not completed before `since` is not purged until more than `days` of 86,400,000,000 microseconds after it |
| Attachments.PurgeIsExact | crates/postbud-db/src/message.rs:454-480 | a purge sets both bodies to null, dates the row and deletes the files of exactly the messages completed more than its days ago and not purged before; every other row, and every other column, stays |
| Safety.FinishedIsNeverClaimed | crates/postbud-db/src/message.rs:176-199 | a message that is not queued is in no later claim of any run |
| Queue.NewMessageIs | crates/postbud-db/src/message.rs:69-117 | a new message is suppressed exactly if an active row has its address in any case, for everyone or for its tenant; otherwise it can be claimed from that moment on |
| Safety.ClaimsAreSpaced | crates/postbud-db/src/message.rs:168-199 | two claims of one message with no record between them are more than 600,000,000 microseconds apart |
| Safety.AbandonedIsRetaken | crates/postbud-db/src/message.rs:168-199 | after a worker vanishes its message is in no claim up to and including ten minutes later, and in every claim with room for it and not finding its row locked from the first microsecond after that |
| Safety.VanishedNeverRecords | crates/postbud-relay/src/worker.rs:216-245 | a worker that vanished, at any point before, or has recorded, records nothing more for that claim in any run |
| Safety.MayVanish | crates/postbud-relay/src/worker.rs:137-144 | until it has recorded it may always vanish |
| Safety.RelayHolds | crates/postbud-db/src/relayqueue.rs:3-7 | what the relay has taken it holds until it lets go of it |
| Safety.RelayTakesAndLetsGo | crates/postbud-db/src/relayqueue.rs:3-7 | it takes in ids it never had, from elsewhere too, and lets go of exactly what leaves |
| Safety.BlockStands | crates/postbud-db/src/suppression.rs:72-89 | an active suppression row is unchanged by any run that does not lift that row |
| Safety.LiftedLetsThrough | crates/postbud-db/src/suppression.rs:72-89 | lifting the one active row with an address dates and signs it and lets the next new message through |
| Safety.BouncedIsNeverDelivered | crates/postbud-db/src/relayqueue.rs:14-17 | once a bounce carries a queue id, no later report of any run makes a delivered message of one with that id |
| Safety.SuppressedIsNeverSent | crates/postbud-db/src/message.rs:69-93 | while an active row has the recipient in any case, for everyone or for the tenant, each new message to it is stored suppressed and is never claimed, not even after the row is lifted |
| Safety.ListedIsNeverSent | crates/postbud-db/src/suppression.rs:25-43 | once an address is listed for everyone, every tenant's later message to it, in any case, is suppressed and never claimed until the row is lifted |
| Bounces.StatementsAreIngest | crates/postbud-db/src/bounce.rs:30-103 | the statements taking in a notification makes, as steps of the state machine, leave what the method leaves |
| Bounces.ReportedIsNeverSent | crates/postbud-db/src/bounce.rs:86-99 | given a text and a suppressing report in it: from that report's statement on, whatever is interleaved, every tenant's later message to its recipient is suppressed and never claimed until the row is lifted |
| Bounces.IngestedIsNeverSent | crates/postbud-db/src/bounce.rs:30-103 | the same from the end of the whole ingestion, with the raw text as the only hypothesis about it |
| Database.AfterReportsMeans | crates/postbud-db/src/bounce.rs:44-99 | one bounce row per report in order, every column given from the report, its class in words and the message with its queue id iff there is one; every suppressing report's recipient listed for everyone; uniqueness kept |
| Database.NewSuppressionIs | crates/postbud-db/src/bounce.rs:86-99 | every new row of the list is for everyone and gives address, reason, source and words of a suppressing report |
| Lease.LiveClaimIsNotRetaken | crates/postbud-db/src/message.rs:168-199 | no claim takes a message whose worker may still record |
| Lease.LeasesHold | crates/postbud-db/src/message.rs:168-199 | in every leased run a message claimed at most ten minutes ago and not recorded is in no claim, in no other live worker's hands, still queued and with the attempts it was claimed with |
| Lease.HeldIsWhole | crates/postbud-db/src/message.rs:200-259 | what a live worker holds has not been purged, so the files it loads are all there |
| Lease.RunKeepsDiscipline | crates/postbud-relay/src/worker.rs:216-245 | under the lease assumption every run keeps: each live worker's row is as its claim left it, live workers hold different messages, every log tells its message's history |
| Lease.LogIsTheHistory | crates/postbud-db/src/message.rs:264-400 | under the lease assumption the log lines of a message are numbered exactly 1 to attempts, all but the last transient, the last Taken iff sent and Permanent iff failed |
| Lease.LogKeepsAnswers | crates/postbud-db/src/message.rs:264-400 | in every run one log line per recorded outcome, in order: verdict, code, queue id and words for each kind of answer, written out, and the remark in front of the words when the tries have run out |
| Lease.SettleWrites | crates/postbud-db/src/message.rs:264-374 | recording changes one row and adds one line; every column of the row is given, the last error is the line's words, the claim is gone, and the line keeps what the relay answered |
| Lease.NextLine | crates/postbud-db/src/message.rs:264-400 | a line continues a history iff the row was queued and the number is the next one |
| Lease.NextLineIsSpaced | crates/postbud-relay/src/worker.rs:230-243 | lines recorded when due keep the schedule's spacing |
| Lease.DeferredIsDueAgain | crates/postbud-db/src/message.rs:300-339 | a deferred message is claimable again from exactly the scheduled time on |
| Lease.RetryWindow | crates/postbud-core/src/retry.rs:24-45 | a message that is only deferred fails exactly at its ninth attempt, at least 253,200,000,000 microseconds after its first |
| Lease.FenceIsExact | crates/postbud-db/src/message.rs:264-374 | without the lease, a record keeps a right history right iff the row is still queued with the attempts it was claimed with |
| LateSteps.LateRecordOverwrites | crates/postbud-db/src/message.rs:264-297 | a run in which a record past its lease turns a failed message with a right history into a sent one with two first attempts |
| LateSteps.LateRecordFalsifiesDelivered | crates/postbud-db/src/message.rs:264-297 | a run whose snapshots are all complete and prompt, with every label true and the row rightly delivered, after which a record past its lease makes the label false |
| LateSteps.LateReportFalsifiesDelivered | crates/postbud-api/src/relayqueue.rs:22-25 | a run with every lease kept and every snapshot complete and at most one microsecond past the grace that ends with a false label |
| LateSteps.GraceIsExact | crates/postbud-api/src/relayqueue.rs:22-25 | for every delay: all runs with leases kept and complete snapshots arriving within it end with every label true if and only if it is at most 15,000,000 microseconds |
| RelayTruth.PromptReportIsTrue | crates/postbud-db/src/relayqueue.rs:88-108 | a prompt report concludes delivered only for messages the relay has let go of, with no assumption about workers |
| RelayTruth.StepKeepsFaith | crates/postbud-db/src/relayqueue.rs:9-17 | with complete snapshots alone: ids in rows and answers are ones the relay issued before the row was completed, and each snapshot has what the relay held then and still holds |
| RelayTruth.RecordMislabelsIff | crates/postbud-db/src/message.rs:264-374 | a record leaves its row's label false exactly when it puts an id the relay holds onto a row labelled delivered |
| RelayTruth.LabelsTrueIff | crates/postbud-db/src/message.rs:264-374 | over every run with complete snapshots within the grace and no assumption about workers, labels are true throughout iff no record does that |
| RelayTruth.UnlessRelabelled | crates/postbud-db/src/message.rs:264-297 | so late workers falsify no label if none records an id for a row labelled delivered, which the row itself shows |
| RelayTruth.LeasedNeverRelabels | crates/postbud-relay/src/worker.rs:216-245 | workers that keep their leases never do |
| RelayTruth.NoFalseDelivered | crates/postbud-db/src/relayqueue.rs:9-108 | in every such run a message marked delivered was sent and is not in the relay's queue |
| Retry.Backoff | crates/postbud-core/src/retry.rs:38-45 | a delay exists iff fewer than nine attempts were made, between a minute and a day |
| Retry.DelaysAre | crates/postbud-core/src/retry.rs:24-45 | the eight delays in seconds, and none after the ninth attempt |
| Retry.FullSpan | crates/postbud-core/src/retry.rs:24-36 | the delays between attempts 1 and 9 add up to 253,200 s, more than two days |
| Queue.Accept | crates/postbud-db/src/message.rs:66-152 | the receipt names a row of that tenant and key, with its status, deduplicated iff there was one |
| Queue.Lookup | crates/postbud-db/src/message.rs:96-103 | finds the row of a tenant and key iff there is one |
| SuppressionList.Add | crates/postbud-db/src/suppression.rs:48-70 | afterwards the address is listed for the scope; old rows stay; at most a row of that key is new |
| SuppressionList.AddKeepsUnique | crates/postbud-db/migrations/0001_init.sql:156-161 | one active row per scope and lower-cased address survives additions |
| SuppressionList.LiftKeepsUnique | crates/postbud-db/src/suppression.rs:72-89 | and liftings |
| SuppressionList.Lift | crates/postbud-db/src/suppression.rs:72-89 | true iff the row was active; only that row changes and it stays in the history |
| SuppressionList.AddAffects | crates/postbud-db/src/suppression.rs:25-43 | adding changes the answer for exactly the covered tenants and address: a tenant's entry never changes another tenant's mail |
| Attachments.FilingIsExact | crates/postbud-db/src/message.rs:116-132 | filing a message's files leaves every other message's alone and stores its own as submitted |
| Attachments.AttachmentsFor | crates/postbud-db/src/message.rs:222-259 | one query for a batch gives every message what a query of its own by position would give |
| Attachments.StoredComesBack | crates/postbud-db/src/message.rs:116-259 | files come back in the submitted order |
| Reconcile.HeardStep | crates/postbud-db/src/relayqueue.rs:53-85 | one more update of the entry loop is one more entry in the pointwise account of each row |
| Reconcile.ReplayNow | crates/postbud-db/src/relayqueue.rs:51-66 | replaying a snapshot at the same instant changes no row, timestamps included |
| Reconcile.ReplayLater | crates/postbud-db/src/relayqueue.rs:51-66 | replayed at any other time, a snapshot leaves a message in it unchanged, timestamp included, iff the entries naming it agree |
| Reconcile.ReplayOfRepeatedIdRestamps | crates/postbud-db/src/relayqueue.rs:51-66 | the failing input: one id under two reasons, stamped anew at every other time |
| Reconcile.BecomesDeliveredByDeparting | crates/postbud-db/src/relayqueue.rs:88-108 | a row becomes delivered iff it was sent under an id and completed before the grace, no entry has the id and no bounce has it; then its words are cleared and it is stamped |
| Reconcile.ListedRow | crates/postbud-db/src/relayqueue.rs:51-66 | a row is active afterwards if its last entry is in one of three named queues and deferred otherwise, with that entry's reason, stamped if either changed |
| Reconcile.UnlistedRow | crates/postbud-db/src/relayqueue.rs:88-108 | a row no entry names is untouched unless it becomes delivered |
| Reconcile.UnmatchedCount | crates/postbud-db/src/relayqueue.rs:69-83 | the unmatched count is the number of entries under an id no message has |
| Reconcile.DeparturesCount | crates/postbud-db/src/relayqueue.rs:88-109 | the delivered count is the number of rows that became delivered |
| Reconcile.OnlyRelayColumns | crates/postbud-db/src/relayqueue.rs:56-108 | a snapshot changes nothing but the relay columns |
| Database.PickIsPick | crates/postbud-db/src/message.rs:182-189 | the rows a claim takes are distinct, claimable, unlocked, at most the batch, and none left behind is due earlier |
| Database.Store.Accept | crates/postbud-db/src/message.rs:66-152 | the method with its attachment loop does to the tables what the specification of accept says |
| Database.Store.Claim | crates/postbud-db/src/message.rs:176-220 | returns at most the batch, each row once, queued, due, unlocked and not claimed in the last 600,000,000 microseconds, none left behind that is due earlier; marks exactly those and returns attempts, content and files |
| Database.Store.Load | crates/postbud-db/src/message.rs:200-220 | taking files out of the batch map one message at a time loses and shares none |
| Database.Store.RecordAccepted | crates/postbud-db/src/message.rs:264-297 | after the update no claim can take the message at any time, exactly the queue reports under that id are about it, and one line is logged |
| Database.Store.RecordTransient | crates/postbud-db/src/message.rs:300-339 | after the update the message is claimable iff it was queued and the delay is over, and one line is logged |
| Database.Store.RecordFailed | crates/postbud-db/src/message.rs:341-374 | after the update no claim can take the message and no snapshot can call it delivered, and one line is logged |
| Database.Store.DeliverOne | crates/postbud-relay/src/worker.rs:216-245 | every outcome is recorded, with the attempt counted, by the statement it calls for |
| Database.Store.PurgeBodies | crates/postbud-db/src/message.rs:454-480 | the two statements together blank and empty exactly the due messages, and the count is the number of rows changed |
| Database.Store.ReconcileQueue | crates/postbud-db/src/relayqueue.rs:40-112 | entry loop and bulk update together: rows become delivered under exactly the stated conditions on their columns, entries and bounces, every other effect is the pointwise one, and each count is the number of what it counts |
| Database.Store.Suppress | crates/postbud-db/src/suppression.rs:45-70 | afterwards exactly the tenants covered are blocked from the address beside those blocked before, and no key is active twice |
| Database.Store.Unsuppress | crates/postbud-db/src/suppression.rs:72-89 | the table after a lifting and whether there was anything to lift |
| Database.Store.Ingest | crates/postbud-db/src/bounce.rs:30-103 | the loop leaves the tables the notification's reports call for; the three counts are the numbers of reports, of suppressing ones and of those no message matches; uniqueness kept |
| Database.ByQueueId | crates/postbud-db/src/bounce.rs:47-56 | the message a bounce is about, none iff no row has the queue id |
| Text.LowerLetters | crates/postbud-core/src/dsn.rs:117-126 | lower-casing turns 26 letters into their small ones and leaves every other character |
| Text.SpacesAre | crates/postbud-core/src/dsn.rs:120-124 | the 25 whitespace characters by number |
| Text.LinesAre | crates/postbud-core/src/dsn.rs:196-199 | a line ends at its line feed, without a carriage return before it |
| Text.DecimalReads | crates/postbud-relay/src/worker.rs:240 | a number is printed in digits that stand for it |
| Dsn.Unfold | crates/postbud-core/src/dsn.rs:194-208 | the loop joins each line with exactly the lines that continue it |
| Dsn.Parse | crates/postbud-core/src/dsn.rs:132-192 | the one pass with late backfill equals the two-pass meaning: a report per Final-Recipient, its queue id the last before it or else the last of all, its status and diagnostic the last of its own block |
| Dsn.Backfill | crates/postbud-core/src/dsn.rs:183-189 | filling in the queue id completes every block of the meaning |
| Dsn.HoldingOneMore | crates/postbud-core/src/dsn.rs:140-175 | what each kind of field does to the blocks read so far |
| Dsn.StartsAreAll | crates/postbud-core/src/dsn.rs:151-163 | every Final-Recipient field starts a block |
| Dsn.LastNamedIsLast | crates/postbud-core/src/dsn.rs:149-175 | the value taken is that of the last field of the name in the range |
| Dsn.LastNamedMisses | crates/postbud-core/src/dsn.rs:149-175 | there is none iff no field of the range has the name |
| Dsn.OnlyPermanentSuppresses | crates/postbud-core/src/dsn.rs:47-60 | a report's class is always that of its own status, and none suppresses without a class 5 status in its own block |
| DsnReading.CodeAlone | crates/postbud-core/src/dsn.rs:80-92 | without words an address is given up iff the class is 5 and the rest is 1.1, 1.2, 1.3, 1.6, 1.10 or 2.1 |
| DsnReading.NotificationIsRead | crates/postbud-core/src/dsn.rs:132-192 | the text of a notification with its four field names is read as one report for each recipient in order, with its own address, status, words and class and the queue id before it or else after |
| DsnReading.ClassOf | crates/postbud-core/src/lib.rs:52-60 | the class is accepted, transient or permanent for a first part 2, 4 or 5 and unknown for any other |
| DsnReading.SparingCodes | crates/postbud-core/src/dsn.rs:62-79 | 5.2.2, 5.2.3, 5.1.7, 5.1.8, 5.1.0, 5.0.0 and 5.7.1 without words cost no address |
| DsnReading.WordsDecide | crates/postbud-core/src/dsn.rs:94-126 | a permanent failure without one of the six codes costs an address iff its words, in any case and spacing, contain one of the five phrases |
| DsnReading.EveryTextIsSpaced | crates/postbud-core/src/dsn.rs:117-126 | every text is some words and some whitespace, so that covers every diagnostic |
| DsnSpacing.SameWordsSameNews | crates/postbud-core/src/dsn.rs:117-126 | two documents that differ in how one diagnostic is written, with the same words, suppress the same recipients |
| DsnSpacing.Refolding | crates/postbud-core/src/dsn.rs:194-208 | folding a diagnostic at any run of whitespace, the next line starting with a space or a tab, changes no recipient and no suppression |
| DsnSpacing.CaseAndSpacing | crates/postbud-core/src/dsn.rs:117-126 | neither does its case or spacing |
| DsnSpacing.SpokenWithoutPrefix | crates/postbud-core/src/dsn.rs:210-217 | dropping the type prefix commutes with lower-casing and splitting into words |
| Showq.Parse | crates/postbud-core/src/showq.rs:32-65 | the loop gives the entries of the complete records of the pieces: last id, last queue name, first reason |
| Showq.CutStream | crates/postbud-core/src/showq.rs:10-18 | a written stream is cut into exactly its records, whatever follows it |
| Showq.DescribedIsRead | crates/postbud-core/src/showq.rs:26-31 | a record whose one `queue_id` is field i and whose one `queue_name` is field k is read as those values decoded and trimmed, with the first reason's value unless it is empty |
| Showq.AnswerIsRead | crates/postbud-core/src/showq.rs:26-65 | a protocol record and then records that describe a queue are read as exactly that queue |
| Showq.WrittenIsRead | crates/postbud-core/src/showq.rs:26-65 | an answer written from a queue, each entry's texts as field values with other fields around them and any encoding the decoder undoes, is read as that queue |
| Showq.CutAnywhere | crates/postbud-relay/src/queuereport.rs:46-62 | what is cut from an answer broken off at any byte is its first records, the last perhaps short of fields |
| Showq.TruncationLosesOnly | crates/postbud-relay/src/queuereport.rs:46-62 | an answer broken off at any byte gives at most the whole answer's entries, with its ids in its order, and all but the last of them unchanged |
| Json.StringReadsBack | crates/postbud-relay/src/queuereport.rs:68-77 | every string comes back from its printed literal |
| Json.EscapesAre | crates/postbud-core/src/relayqueue.rs:54 | what each escape stands for, surrogate pairs included, and that half a pair is an error |
| Json.HexDigitsAre | crates/postbud-core/src/relayqueue.rs:54 | hexadecimal digits of either case and no other character |
| Json.Hex4Is | crates/postbud-core/src/relayqueue.rs:54 | four of them are a number, the most significant first |
| Json.BlanksAre | crates/postbud-core/src/relayqueue.rs:54 | the four blanks |
| Json.NumberForms | crates/postbud-core/src/relayqueue.rs:54 | a number with sign, fraction and exponent, each or not, is read to its end |
| Json.ParsePrint | crates/postbud-relay/src/queuereport.rs:65-81 | every value comes back from its text, numbers being whole, whatever blanks stand after commas and colons |
| Json.PrintIsPrintable | crates/postbud-relay/src/queuereport.rs:77-78 | printed JSON has no control character, so no raw line feed |
| QueueReport.AsNdjson | crates/postbud-relay/src/queuereport.rs:65-81 | the loop prints one line per entry |
| QueueReport.IngestLine | crates/postbud-core/src/relayqueue.rs:46-66 | each line is read on its own, so a bad one costs only itself |
| QueueReport.LineIsReadAs | crates/postbud-core/src/relayqueue.rs:46-66 | a line of the relay's own tool, the three fields anywhere among others, spaced, with any number of recipients, is read as its id, its queue name and the first reason given, trimmed, unless empty |
| QueueReport.EntryNeeds | crates/postbud-core/src/relayqueue.rs:30-42 | an object with a needed field missing, repeated or not a text is no entry; an array may give the fields in order |
| QueueReport.RecipientNeeds | crates/postbud-core/src/relayqueue.rs:38-42 | a repeated reason, or one that is neither text nor null, makes the line unreadable; null is no reason; an array may give it |
| QueueReport.ReportIsRead | crates/postbud-core/src/relayqueue.rs:51-66 | a printed report comes back entry by entry, whatever text follows it |
| QueueReport.RoundTrip | crates/postbud-relay/src/queuereport.rs:65-81 | the report comes back unchanged iff every reason is trimmed and not empty |
| QueueReport.QueueComesBack | crates/postbud-relay/src/queuereport.rs:93-98 | for every byte string and every decoding, ingesting the printed report gives the parsed queue |
| QueueReport.AnswerReachesEndpoint | crates/postbud-core/src/showq.rs:26-65 | a complete answer written from a queue reaches the endpoint as exactly that queue |
| AdminUsers.StepKeepsSound | crates/postbud-db/src/admin_user.rs:84-183 | each lock, count, write, commit and abort step keeps what every open transaction has read under its locks |
| AdminUsers.LastAdminStays | crates/postbud-db/src/admin_user.rs:84-183 | over every interleaving from the empty table: once there is an active admin there is always one, and no identifier is active twice |
| AdminUsers.BootstrapStaysClosed | crates/postbud-api/src/admin.rs:129-149 | from then on, in every run, an identity has a role iff an active grant is for its subject or its email, and is an admin only by an active admin grant |
| AdminUsers.ResolvesIff | crates/postbud-db/src/admin_user.rs:185-208 | an identity resolves to a role iff an active grant of that role has its subject as written or its email in any case, and to nothing iff no active grant has either |
| AdminUsers.AdminsAreGranted | crates/postbud-api/src/admin.rs:136-149 | an admin has an active admin grant, or is on the environment's list while no grant at all is active |
| AdminUsers.GrantedAreIn | crates/postbud-api/src/admin.rs:136-149 | an active grant always lets its identity in |
| AdminUsers.CommitReopensBootstrap | crates/postbud-db/src/admin_user.rs:84-120 | a commit leaves every grant ended iff it ends the only active one and that is a viewer's |
| AdminUsers.CommitWrites | crates/postbud-db/src/admin_user.rs:114-180 | a cleared transaction ends its grant and, for a change of role, adds one with the same identifier and note |
| AdminUsers.TransactionAlone | crates/postbud-db/src/admin_user.rs:84-183 | by itself a transaction's steps do exactly what the table's method does, refusals included |
| AdminUsers.ViewerReopensBootstrap | crates/postbud-db/migrations/0002_admin_users.sql:10-12 | the failing input as a run: a viewer granted and ended leaves no active row, nobody resolves, and the environment's list makes admins again |
| AdminUsers.Table.constructor | crates/postbud-db/migrations/0002_admin_users.sql:14-32 | the table starts empty |
| AdminUsers.Table.Add | crates/postbud-db/src/admin_user.rs:53-79 | refused iff an active grant has the identifier in any case, else one new row |
| AdminUsers.Table.End | crates/postbud-db/src/admin_user.rs:84-120 | refused iff it would end the only admin; a missing grant is not found; else only that row ends |
| AdminUsers.Table.SetRole | crates/postbud-db/src/admin_user.rs:127-183 | refused iff it would demote the only admin; else an end and a new grant, or nothing if the role is the same |
| OidcSha256.AdmittedLengths | ui/admin/src/lib/oidc.js:33-36 | the signed 32-bit size is the standard's iff len + 8 < 2^31, and too small for every longer message |
| OidcSha256.PadInto | ui/admin/src/lib/oidc.js:33-39 | the array is the padded message of section 5.1.1 of FIPS 180-4 |
| OidcSha256.RotateIsRotr | ui/admin/src/lib/oidc.js:31 | the signed shift-and-or is the standard's rotation |
| Fips180.WordBits | ui/admin/src/lib/oidc.js:31-57 | and, or, exclusive or and complement work bit by bit |
| Fips180.RotrBit | ui/admin/src/lib/oidc.js:31 | a rotation takes each bit from n places above, round the end |
| Fips180.ShrBit | ui/admin/src/lib/oidc.js:46-47 | a shift to the right takes each bit from n places above |
| Fips180.ShlBit | ui/admin/src/lib/oidc.js:31 | a shift to the left takes it from n places below, zeros coming in |
| Fips180.BigEndianIs | ui/admin/src/lib/oidc.js:38-44 | words are four bytes, the most significant first, both ways |
| OidcSha256.NextWord | ui/admin/src/lib/oidc.js:46-48 | the exact sums, brought back to 32 bits once, are the schedule's additions modulo 2^32 |
| OidcSha256.FillSchedule | ui/admin/src/lib/oidc.js:44-49 | the in-place array is the recursive message schedule of the block |
| OidcSha256.PassIsRound | ui/admin/src/lib/oidc.js:52-59 | the two sums of a pass and the rotated registers are one round |
| OidcSha256.Mix | ui/admin/src/lib/oidc.js:50-60 | sixty-four passes are the sixty-four rounds |
| OidcSha256.Compress | ui/admin/src/lib/oidc.js:50-64 | a block's effect on the hash is that of section 6.2.2 |
| OidcSha256.Output | ui/admin/src/lib/oidc.js:66-70 | the words, most significant byte first |
| OidcSha256.Hash | ui/admin/src/lib/oidc.js:13-71 | the result is SHA-256 of the input for every admitted length, over all blocks |
| Fips180.RoundConstants | ui/admin/src/lib/oidc.js:14-26 | the 64 constants are the first 32 fractional bits of the cube roots of the first 64 primes |
| Fips180.InitialValue | ui/admin/src/lib/oidc.js:27-30 | the initial hash words are those of the square roots of the first eight |
| Paging.PageSize | crates/postbud-api/src/admin.rs:217-228 | 10 if nothing is asked for, what is asked for from 1 to 100, and the nearer bound otherwise |
| Paging.ListingIsExact | crates/postbud-db/src/admin.rs:293-320 | exactly the rows of the table the filter keeps that are older than the cursor by time and then id, strictly falling |
| Paging.Paginate | crates/postbud-api/src/admin.rs:230-239 | the rows kept, and a cursor iff one more was fetched |
| Paging.ListPage | crates/postbud-api/src/admin.rs:302-320 | fetching one row more is enough: the database's clamp never takes the extra row away |
| Paging.Messages | crates/postbud-api/src/admin.rs:257-275 | the message list pages by both halves of its cursor, and half a cursor is none |
| Paging.NextIsShorter | crates/postbud-db/src/admin.rs:281-320 | a page and the listing past its cursor are together the listing |
| Paging.WalkIsListing | crates/postbud-api/src/admin.rs:201-239 | following `next` ends; the pages together are the whole listing; every page but the last is full; no page is empty but a sole one |
| Paging.WalkFollows | crates/postbud-api/src/admin.rs:201-239 | that walk is the client's walk over a table at rest |
| Paging.NeverRepeats | crates/postbud-db/src/admin.rs:281-284 | however the table changes between the pages of a walk, what is shown falls strictly by time and then id, so nothing is repeated |
| Paging.NothingIsSkipped | crates/postbud-db/src/admin.rs:281-284 | a row that matches at every page is shown by the end |
| Paging.NothingIsMadeUp | crates/postbud-db/src/admin.rs:293-320 | every row shown was in the table and matched when its page was made |
| TenantDomains.StepKeepsRecord | crates/postbud-db/src/tenant.rs:44-203 | each step of interleaved transactions keeps what was read under the lock, and the log in line with the lists |
| TenantDomains.LogReplaysToLive | crates/postbud-db/src/tenant.rs:44-203 | in every run from the empty tables each tenant's log starts from nothing, each entry from where the last left off, none but the first changing nothing, and ends at the live list |
| TenantDomains.EarlierListIsOnRecord | crates/postbud-db/migrations/0010_tenant_domain_history.sql:1-25 | the list of any earlier point is where the last entry of the log of that time leaves off |
| TenantDomains.Tenants.constructor | crates/postbud-db/migrations/0010_tenant_domain_history.sql:27-40 | nothing live, nothing logged |
| TenantDomains.Tenants.Add | crates/postbud-db/src/tenant.rs:44-97 | the tenant and its opening grant in one step of the machine |
| TenantDomains.Tenants.SetDomains | crates/postbud-db/src/tenant.rs:154-203 | the list is replaced and the change logged with what it replaced, unless it is the same; the transaction is the machine's lock step and commit step; an unknown tenant changes nothing |
| ReportDomains.BlindToCaseAndDots | crates/postbud-core/src/dnscheck.rs:315-325 | the organizational domain does not depend on case or trailing dots |
| ReportDomains.LastTwoLabels | crates/postbud-core/src/dnscheck.rs:315-325 | for any name ending in two labels the organizational domain is those two in lower case |
| ReportDomains.Idempotent | crates/postbud-core/src/dnscheck.rs:315-325 | an organizational domain is its own |
| ReportDomains.RuaDomains | crates/postbud-core/src/dnscheck.rs:327-358 | the loops give each normalised host of the record once, where it is first seen, and no other |
| ReportDomains.FirstSeenIs | crates/postbud-core/src/dnscheck.rs:350-353 | the same hosts and none twice |
| ReportDomains.FirstSeenGrows | crates/postbud-core/src/dnscheck.rs:350-353 | in order of first appearance: reading on only adds at the end |
| ReportDomains.RecordIsRead | crates/postbud-core/src/dnscheck.rs:327-358 | of a written record exactly the hosts of its `rua` addresses are read, in order, whatever their case, spacing and size limits; other tags, other URIs, a `mailto:` without `@` and empty values give none |
| ReportDomains.EveryRecordIsWritten | crates/postbud-core/src/dnscheck.rs:327-358 | every text whatever is the text of some such list of tags, so the reading is characterised for all inputs |
| ReportDomains.ReportAuthNamesAre | crates/postbud-core/src/dnscheck.rs:360-378 | the names are different and are exactly `publisher._report._dmarc.host` for the record's hosts outside the publisher's organizational domain |
| Worker.RelayBatch | crates/postbud-relay/src/worker.rs:111-134 | the drain starts the claimed messages in order, is orderly throughout and ends with nothing under way |
| Worker.JoinOne | crates/postbud-relay/src/worker.rs:137-144 | whichever delivery finishes, it is one that is under way |
| Worker.NeverTooMany | crates/postbud-relay/src/worker.rs:117-120 | at no moment are more deliveries under way than the limit |
| Worker.UnderWay | crates/postbud-relay/src/worker.rs:116-130 | what is under way is what was started and is not joined |
| Worker.AllJoined | crates/postbud-relay/src/worker.rs:131-133 | at the end every message started has been joined |
| Worker.WaitsOnlyWhenFull | crates/postbud-relay/src/worker.rs:116-120 | while messages are left to start, a delivery is waited for only when as many as allowed are under way |
| Worker.StartsAre | crates/postbud-relay/src/worker.rs:116-130 | what has been started is what the start events say, each once |
| Worker.JoinedOnce | crates/postbud-relay/src/worker.rs:131-144 | and no message twice |

## Left out

- HTTP routing, OIDC discovery and tokens, cookies, the PKCE flow around the hash, and the Svelte pages.
- SMTP, IMAP, DNS and TLS, building MIME, and reading aggregate DMARC reports from XML, gzip and zip: a hand-over is any outcome the relay may give.
- UTF-8 repair: text decoded from showq is any function of the bytes. Lower-casing is ASCII, so an address or identifier with other letters may compare differently in Postgres; a `rua` value with a character split by its seventh byte is not modelled.
- Ids: a message's id is its place in the table rather than a random UUID; in `Paging` ids are any integers.
- The delivery queue ids Postfix gives out are never used twice in the model.
- The SHA-256 column of attachments, and the wake-up by LISTEN and NOTIFY with its polling interval.
- Attachments.PurgeIsExact: a day is 24 hours, and a number of days beyond 32 bits, which the program truncates, is not modelled.
- Negative batch sizes and malformed environment variables.
- Postgres beyond atomic transactions, row locks re-read once granted, and the unique indexes.
- Database.Store.Ingest: the program runs its statements for a notification one by one; the method is the sequence with nothing in between, while in `Protocol` each of them is a step of its own.
- Database.Store.Claim: the claimed rows are returned in the order they are due, where Postgres may return them in any order; their files are loaded in the same step, where the program loads them in a second statement (`Lease.HeldIsWhole` says what a live worker finds then).
- Database.Store.DeliverOne: loading files and recording are single steps; a worker that vanishes between steps is in `Protocol`.
- QueueReport.QueueComesBack: half a surrogate pair inside a value the endpoint ignores is refused by the model's reader and passed over by the real one; no printed report has one.
- Json.ParsePrint: fractions and exponents, which the reader accepts and keeps as they are written.
- Showq.TruncationLosesOnly: assumes that showq names a message's queue id once in its record.
- AdminUsers.LastAdminStays: a counting statement is modelled as fixing the set of rows to lock when it starts and re-reading each once locked.
- ReportDomains.ReportAuthNamesAre: checking the answers to the names is left out, as is the public suffix list the program does without.
- Worker.RelayBatch: the endless loop around it, which claims, drains and claims again.
- Volume and silence alerts, reverse DNS, SPF, DKIM and DMARC policy checks, dashboards and detail pages.
