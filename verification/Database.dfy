/** The database as the program works on it: one method for each operation that changes it, with the
    loops of the program and its statements as single updates. */
module Database {
  import opened Wrappers
  import opened Schema
  import Attachments
  import Dsn
  import Queue
  import Reconcile
  import Retry
  import SuppressionList
  import Text

  /** What a claim hands to a worker. */
  datatype Claimed = Claimed(id: nat, attempts: nat, content: Content, attachments: seq<Attachment>)

  datatype Ingested = Ingested(reports: nat, suppressed: nat, unmatched: nat)

  datatype Counts = Counts(queued: nat, delivered: nat, unmatched: nat)

  // ---------------------------------------------------- picking due rows

  /** Insert before the first row that is due later. */
  function InsertDue(messages: seq<Message>, ids: seq<nat>, id: nat): (r: seq<nat>)
    requires id < |messages| && InRange(messages, ids)
    ensures |r| == |ids| + 1 && InRange(messages, r)
    ensures forall x :: x in r <==> x in ids || x == id
  {
    if ids == [] || messages[ids[0]].nextAttemptAt > messages[id].nextAttemptAt then [id] + ids
    else [ids[0]] + InsertDue(messages, ids[1..], id)
  }

  predicate InRange(messages: seq<Message>, ids: seq<nat>) {
    forall k | 0 <= k < |ids| :: ids[k] < |messages|
  }

  /** Earliest due first, and no row twice. */
  predicate Lined(messages: seq<Message>, ids: seq<nat>)
    requires InRange(messages, ids)
  {
    && Distinct(ids)
    && forall i, j | 0 <= i < j < |ids| :: messages[ids[i]].nextAttemptAt <= messages[ids[j]].nextAttemptAt
  }

  lemma {:induction false} InsertDueLined(messages: seq<Message>, ids: seq<nat>, id: nat)
    requires id < |messages| && InRange(messages, ids) && Lined(messages, ids) && id !in ids
    ensures Lined(messages, InsertDue(messages, ids, id))
  {
    if !(ids == [] || messages[ids[0]].nextAttemptAt > messages[id].nextAttemptAt) {
      var rest := InsertDue(messages, ids[1..], id);
      InsertDueLined(messages, ids[1..], id);
      forall k | 0 <= k < |rest|
        ensures rest[k] != ids[0] && messages[ids[0]].nextAttemptAt <= messages[rest[k]].nextAttemptAt
      {
        assert rest[k] in rest;
        assert rest[k] in ids[1..] || rest[k] == id;
      }
    }
  }

  /** The claimable rows among the first `n` that nobody has locked, earliest due first. */
  function Due(messages: seq<Message>, now: Time, locked: set<nat>, n: nat): (ids: seq<nat>)
    requires n <= |messages|
    ensures InRange(messages, ids)
  {
    if n == 0 then []
    else if n - 1 !in locked && Queue.Claimable(messages[n - 1], now)
    then InsertDue(messages, Due(messages, now, locked, n - 1), n - 1)
    else Due(messages, now, locked, n - 1)
  }

  lemma {:induction false} DueIsLined(messages: seq<Message>, now: Time, locked: set<nat>, n: nat)
    requires n <= |messages|
    ensures forall i: nat :: i in Due(messages, now, locked, n) <==>
                             i < n && i !in locked && Queue.Claimable(messages[i], now)
    ensures Lined(messages, Due(messages, now, locked, n))
  {
    hide Queue.Claimable, Lined;
    if n == 0 {
      assert Lined(messages, []) by {
        NothingLined(messages);
      }
    } else {
      DueIsLined(messages, now, locked, n - 1);
      var rest := Due(messages, now, locked, n - 1);
      if n - 1 !in locked && Queue.Claimable(messages[n - 1], now) {
        InsertDueLined(messages, rest, n - 1);
      }
    }
  }

  lemma NothingLined(messages: seq<Message>)
    ensures Lined(messages, [])
  {
  }

  /** What one claim takes: the first of the due rows, up to the size of the batch. */
  function Pick(messages: seq<Message>, now: Time, locked: set<nat>, batch: nat): seq<nat> {
    var due := Due(messages, now, locked, |messages|);
    if |due| <= batch then due else due[..batch]
  }

  /** The first of a line of rows: no row left out is due before one that is taken. */
  lemma FirstInLine(messages: seq<Message>, line: seq<nat>, n: nat)
    requires InRange(messages, line) && Lined(messages, line) && n <= |line|
    ensures Distinct(line[..n])
    ensures forall i | i in line && i !in line[..n] ::
              forall k | 0 <= k < n :: messages[line[k]].nextAttemptAt <= messages[i].nextAttemptAt
  {
  }

  lemma PickIsPick(messages: seq<Message>, now: Time, locked: set<nat>, batch: nat)
    ensures Queue.IsPick(messages, now, locked, batch, Pick(messages, now, locked, batch))
    ensures InRange(messages, Pick(messages, now, locked, batch)) && Distinct(Pick(messages, now, locked, batch))
  {
    var due := Due(messages, now, locked, |messages|);
    var n := if |due| <= batch then |due| else batch;
    var ids := due[..n];
    assert ids == Pick(messages, now, locked, batch);
    DueIsLined(messages, now, locked, |messages|);
    FirstInLine(messages, due, n);
    hide Queue.Claimable, Due, Lined, Pick, Distinct;
    forall k | 0 <= k < |ids|
      ensures ids[k] < |messages| && ids[k] !in locked && Queue.Claimable(messages[ids[k]], now)
    {
      assert ids[k] == due[k] && due[k] in due;
    }
  }

  /** One line more in the log, and it is this. */
  predicate LineAdded(log: seq<Attempt>, before: seq<Attempt>, id: nat, attempt: nat, verdict: Verdict, at: Time) {
    && |log| == |before| + 1 && before <= log
    && var line := log[|before|];
       line.message == id && line.attempt == attempt && line.verdict == verdict && line.at == at
  }

  /** Queued, due, and not claimed within the last ten minutes. */
  predicate Free(m: Message, now: Time) {
    && m.status == Queued && m.nextAttemptAt <= now
    && (m.claimedAt.None? || m.claimedAt.value < now - 600_000_000)
  }

  /** A pick is some of the free rows that nobody has locked, each once, and leaves one behind only if it
      is as large as the batch and that one is due no earlier. */
  lemma PickIsFree(messages: seq<Message>, now: Time, locked: set<nat>, batch: nat, ids: seq<nat>)
    ensures Queue.IsPick(messages, now, locked, batch, ids) <==>
              && |ids| <= batch && (forall j, k | 0 <= j < k < |ids| :: ids[j] != ids[k])
              && (forall k | 0 <= k < |ids| :: ids[k] < |messages| && ids[k] !in locked && Free(messages[ids[k]], now))
              && forall i | 0 <= i < |messages| && i !in locked && i !in ids && Free(messages[i], now) ::
                   |ids| == batch
                   && forall k | 0 <= k < |ids| :: messages[ids[k]].nextAttemptAt <= messages[i].nextAttemptAt
  {
    assert forall i | 0 <= i < |messages| :: Queue.Claimable(messages[i], now) <==> Free(messages[i], now);
  }

  function Ids(claimed: seq<Claimed>): seq<nat> {
    seq(|claimed|, k requires 0 <= k < |claimed| => claimed[k].id)
  }

  /** The message a bounce is about: the one whose relay queue id it carries. */
  function ByQueueId(messages: seq<Message>, queueId: Option<string>): (r: Option<nat>)
    ensures r.Some? ==> r.value < |messages| && queueId.Some? && messages[r.value].relayQueueId == queueId
    ensures r.None? && queueId.Some? ==> forall i | 0 <= i < |messages| :: messages[i].relayQueueId != queueId
  {
    if messages == [] || queueId.None? then None
    else
      var last := |messages| - 1;
      if messages[last].relayQueueId == queueId then Some(last) else ByQueueId(messages[..last], queueId)
  }

  function ClassName(c: Dsn.Classification): string {
    match c
    case Permanent => "permanent"
    case Transient => "transient"
    case _ => "unknown"
  }

  function BounceRow(messages: seq<Message>, raw: string, r: Dsn.Report): Bounce {
    Bounce(raw, r.relayQueueId, ByQueueId(messages, r.relayQueueId), r.finalRecipient, r.status, r.diagnostic,
           Some(ClassName(r.classification)))
  }

  predicate Suppresses(r: Dsn.Report) {
    Dsn.ShouldSuppress(r) && r.finalRecipient.Some?
  }

  function Suppressing(reports: seq<Dsn.Report>): nat {
    if reports == [] then 0
    else Suppressing(reports[..|reports| - 1]) + if Suppresses(reports[|reports| - 1]) then 1 else 0
  }

  function Strays(messages: seq<Message>, reports: seq<Dsn.Report>): nat {
    if reports == [] then 0
    else Strays(messages, reports[..|reports| - 1])
         + if ByQueueId(messages, reports[|reports| - 1].relayQueueId).None? then 1 else 0
  }

  /** Was this row put on the list for everyone because of one of these reports? */
  predicate FromReports(row: Suppression, now: Time, reports: seq<Dsn.Report>) {
    exists k :: 0 <= k < |reports| && Suppresses(reports[k])
                && row == Suppression(None, reports[k].finalRecipient.value, "hard_bounce", "dsn",
                                      reports[k].diagnostic, now, None, None)
  }

  /** What taking in one report adds: its bounce row, and a global suppression if it calls for one. */
  function AfterReport(db: Tables, now: Time, raw: string, r: Dsn.Report): Tables {
    var t := db.(bounces := db.bounces + [BounceRow(db.messages, raw, r)]);
    if Suppresses(r)
    then t.(suppressions := SuppressionList.Add(t.suppressions, now, None, r.finalRecipient.value,
                                                "hard_bounce", "dsn", r.diagnostic))
    else t
  }

  function AfterReports(db: Tables, now: Time, raw: string, reports: seq<Dsn.Report>): Tables {
    if reports == [] then db
    else AfterReport(AfterReports(db, now, raw, reports[..|reports| - 1]), now, raw, reports[|reports| - 1])
  }

  /** A notification nothing could be read from is kept as it came. */
  function AfterNotification(db: Tables, now: Time, raw: string): Tables {
    var reports := Dsn.Meaning(raw);
    if reports == [] then db.(bounces := db.bounces + [Bounce(raw, None, None, None, None, None, None)])
    else AfterReports(db, now, raw, reports)
  }

  class Store {
    var messages: seq<Message>
    var attachments: seq<AttachmentRow>
    var log: seq<Attempt>
    var suppressions: seq<Suppression>
    var bounces: seq<Bounce>

    constructor ()
      ensures All() == Tables([], [], [], [], [])
    {
      messages, attachments, log, suppressions, bounces := [], [], [], [], [];
    }

    function All(): Tables
      reads this
    {
      Tables(messages, attachments, log, suppressions, bounces)
    }

    method Accept(now: Time, draft: Draft) returns (receipt: Queue.Receipt)
      modifies this
      ensures (All(), receipt) == Queue.Accept(old(All()), now, draft)
    {
      var suppressed := SuppressionList.IsSuppressed(suppressions, draft.tenant, draft.content.rcptTo);
      var existing := Queue.Lookup(messages, draft.tenant, draft.key);
      if existing.Some? {
        return Queue.Receipt(existing.value, messages[existing.value].status, true);
      }
      var id := |messages|;
      messages := messages + [Queue.NewMessage(now, draft, suppressed)];
      for position := 0 to |draft.attachments|
        invariant messages == old(messages) + [Queue.NewMessage(now, draft, suppressed)]
        invariant log == old(log) && suppressions == old(suppressions) && bounces == old(bounces)
        invariant attachments == old(attachments) + Queue.AttachmentRows(id, draft.attachments)[..position]
      {
        attachments := attachments + [AttachmentRow(id, position, draft.attachments[position])];
      }
      receipt := Queue.Receipt(id, messages[id].status, false);
      ghost var rows := Queue.AttachmentRows(id, draft.attachments);
      assert rows[..|draft.attachments|] == rows;
    }

    /** Claim up to `batch` due messages that no other transaction has locked, and load their files. */
    method Claim(now: Time, worker: string, batch: nat, locked: set<nat>) returns (claimed: seq<Claimed>)
      modifies this`messages
      ensures Queue.IsPick(old(messages), now, locked, batch, Ids(claimed))
      ensures |claimed| <= batch && forall j, k | 0 <= j < k < |claimed| :: claimed[j].id != claimed[k].id
      ensures forall k | 0 <= k < |claimed| ::
                claimed[k].id < |old(messages)| && claimed[k].id !in locked && Free(old(messages)[claimed[k].id], now)
      ensures forall i |
                0 <= i < |old(messages)| && i !in locked && i !in Ids(claimed) && Free(old(messages)[i], now) ::
                && |claimed| == batch
                && forall k | 0 <= k < |claimed| ::
                     old(messages)[claimed[k].id].nextAttemptAt <= old(messages)[i].nextAttemptAt
      ensures |messages| == |old(messages)|
      ensures forall i | 0 <= i < |messages| ::
                messages[i] == if i in Ids(claimed)
                               then old(messages)[i].(claimedAt := Some(now), claimedBy := Some(worker))
                               else old(messages)[i]
      ensures forall k | 0 <= k < |claimed| ::
                && claimed[k].id < |messages|
                && claimed[k].attempts == messages[claimed[k].id].attempts
                && claimed[k].content == messages[claimed[k].id].content
                && claimed[k].attachments == Attachments.FilesOf(attachments, claimed[k].id)
    {
      var ids := Pick(messages, now, locked, batch);
      PickIsPick(messages, now, locked, batch);
      PickIsFree(messages, now, locked, batch, ids);
      hide Queue.IsPick, Pick, Queue.Claimable;
      messages := Queue.Marked(messages, ids, worker, now);
      claimed := Load(ids);
      assert forall k | 0 <= k < |claimed| :: claimed[k].id == Ids(claimed)[k];
    }

    /** The claimed rows with their files. */
    method Load(ids: seq<nat>) returns (claimed: seq<Claimed>)
      requires InRange(messages, ids) && Distinct(ids)
      ensures Ids(claimed) == ids
      ensures forall k | 0 <= k < |claimed| ::
                claimed[k] == Claimed(ids[k], messages[ids[k]].attempts, messages[ids[k]].content,
                                      Attachments.FilesOf(attachments, ids[k]))
    {
      var files := Attachments.AttachmentsFor(attachments, ids);
      ghost var loaded := files;
      claimed := [];
      for k := 0 to |ids|
        invariant |claimed| == k
        invariant forall j | k <= j < |ids| :: Attachments.Found(files, ids[j]) == Attachments.Found(loaded, ids[j])
        invariant forall j | 0 <= j < k ::
                    claimed[j] == Claimed(ids[j], messages[ids[j]].attempts, messages[ids[j]].content,
                                          Attachments.FilesOf(attachments, ids[j]))
      {
        var m := messages[ids[k]];
        assert ids[k] in ids;
        claimed := claimed + [Claimed(ids[k], m.attempts, m.content, Attachments.Found(files, ids[k]))];
        files := files - {ids[k]};
      }
      assert Ids(claimed) == ids;
    }

    method RecordAccepted(now: Time, id: nat, attempt: nat, queueId: Option<string>)
      requires id < |messages|
      modifies this
      ensures All() == Queue.RecordAccepted(old(All()), now, id, attempt, queueId)
      ensures forall at :: !Queue.Claimable(messages[id], at)
      ensures forall e: QueueEntry :: Reconcile.Names(e, messages[id]) <==> queueId == Some(e.queueId)
      ensures LineAdded(log, old(log), id, attempt, Taken, now)
    {
      messages := messages[id := messages[id].(
        status := Sent, attempts := attempt, relayQueueId := queueId, claimedAt := None, claimedBy := None,
        completedAt := Some(now), lastError := None)];
      log := log + [Attempt(id, attempt, Taken, now, Some(250), queueId, None)];
    }

    method RecordTransient(now: Time, id: nat, attempt: nat, code: Option<int>, detail: string, retryIn: Time)
      requires id < |messages|
      modifies this
      ensures All() == Queue.RecordTransient(old(All()), now, id, attempt, code, detail, retryIn)
      ensures forall at ::
                Queue.Claimable(messages[id], at) <==> old(messages)[id].status.Queued? && at >= now + retryIn
      ensures LineAdded(log, old(log), id, attempt, Transient, now)
    {
      messages := messages[id := messages[id].(
        attempts := attempt, nextAttemptAt := now + retryIn, lastError := Some(detail),
        claimedAt := None, claimedBy := None)];
      log := log + [Attempt(id, attempt, Transient, now, code, None, Some(detail))];
    }

    method RecordFailed(now: Time, id: nat, attempt: nat, code: Option<int>, detail: string)
      requires id < |messages|
      modifies this
      ensures All() == Queue.RecordFailed(old(All()), now, id, attempt, code, detail)
      ensures forall at :: !Queue.Claimable(messages[id], at)
      ensures forall entries, at, grace :: !Reconcile.Departed(messages[id], entries, bounces, at, grace)
      ensures LineAdded(log, old(log), id, attempt, Permanent, now)
    {
      messages := messages[id := messages[id].(
        status := Failed, attempts := attempt, lastError := Some(detail),
        claimedAt := None, claimedBy := None, completedAt := Some(now))];
      log := log + [Attempt(id, attempt, Permanent, now, code, None, Some(detail))];
    }

    /** What a worker writes about a message it claimed, once the relay has answered. */
    method DeliverOne(now: Time, claimed: Claimed, outcome: Outcome)
      requires claimed.id < |messages|
      modifies this
      ensures All() == Queue.Settle(old(All()), now, claimed.id, claimed.attempts, outcome)
    {
      var attempt := claimed.attempts + 1;
      match outcome
      case Accepted(queueId) => RecordAccepted(now, claimed.id, attempt, queueId);
      case Refusal(code, detail) => RecordFailed(now, claimed.id, attempt, code, detail);
      case Deferral(code, detail) =>
        var delay := Retry.Backoff(attempt);
        if delay.Some? {
          RecordTransient(now, claimed.id, attempt, code, detail, delay.value * SECOND);
        } else {
          var remark := "giving up after " + Text.Decimal(attempt) + " attempts: ";
          RecordFailed(now, claimed.id, attempt, code, remark + detail);
        }
    }

    /** Take the bodies and files of what finished long enough ago. */
    method PurgeBodies(now: Time, days: int) returns (purged: nat)
      modifies this`messages, this`attachments
      ensures All() == Queue.Purge(old(All()), now, days)
      ensures purged == |set i | 0 <= i < |messages| && messages[i] != old(messages)[i]|
      ensures forall i | 0 <= i < |messages| ::
                && messages[i].bodyPurgedAt.Some? == (old(messages)[i].bodyPurgedAt.Some?
                                                      || Queue.PurgeDue(old(messages)[i], now, days))
                && Attachments.FilesOf(attachments, i) ==
                     if Queue.PurgeDue(old(messages)[i], now, days) then []
                     else Attachments.FilesOf(old(attachments), i)
    {
      ghost var db := All();
      var gone := Queue.PurgeIds(messages, now, days);
      attachments := Queue.Remaining(attachments, gone);
      messages := seq(|messages|, i requires 0 <= i < |messages| reads this =>
        if Queue.PurgeDue(messages[i], now, days) then Queue.BlankedRow(messages[i], now) else messages[i]);
      purged := |gone|;
      assert gone == set i | 0 <= i < |messages| && messages[i] != db.messages[i];
      forall i | 0 <= i < |messages|
        ensures messages[i] == Queue.Purge(db, now, days).messages[i]
        ensures Attachments.FilesOf(attachments, i) ==
                  if Queue.PurgeDue(db.messages[i], now, days) then [] else Attachments.FilesOf(db.attachments, i)
      {
        Attachments.PurgeIsExact(db, now, days, i);
      }
    }

    /** Apply one snapshot of the relay's queue: an update per entry, then one for all that is absent. */
    method ReconcileQueue(now: Time, entries: seq<QueueEntry>, grace: Time) returns (counts: Counts)
      modifies this`messages
      ensures messages == Reconcile.ReconcileAll(old(messages), entries, bounces, now, grace)
      ensures |messages| == |old(messages)|
      ensures forall i | 0 <= i < |messages| ::
                var m := old(messages)[i];
                m.relayState != Some(Delivered) && messages[i].relayState == Some(Delivered) <==>
                  && m.relayState != Some(Delivered)
                  && m.status == Sent && m.relayQueueId.Some?
                  && m.completedAt.Some? && m.completedAt.value < now - grace
                  && (forall k | 0 <= k < |entries| :: entries[k].queueId != m.relayQueueId.value)
                  && forall b | 0 <= b < |bounces| :: bounces[b].relayQueueId != m.relayQueueId
      ensures counts.queued == |entries|
      ensures counts.unmatched == |set k | 0 <= k < |entries| && Reconcile.NobodyHas(old(messages), entries[k].queueId)|
      ensures counts.delivered ==
                |set i | 0 <= i < |messages| && old(messages)[i].relayState != Some(Delivered)
                         && messages[i].relayState == Some(Delivered)|
    {
      ghost var before := messages;
      var queued, unmatched := 0, 0;
      for k := 0 to |entries|
        invariant queued == k && unmatched == Reconcile.Unmatched(before, entries[..k])
        invariant |messages| == |before|
        invariant forall i | 0 <= i < |before| :: messages[i] == Reconcile.Heard(before[i], entries[..k], now)
      {
        var e := entries[k];
        assert entries[..k + 1] == entries[..k] + [e];
        forall i | 0 <= i < |before|
          ensures Reconcile.Heard(before[i], entries[..k + 1], now) == Reconcile.Touch(messages[i], e, now)
          ensures Reconcile.Names(e, messages[i]) <==> Reconcile.Names(e, before[i])
        {
          Reconcile.HeardStep(before[i], entries[..k], e, now);
        }
        var affected := exists i :: 0 <= i < |messages| && Reconcile.Differs(messages[i], e);
        if !affected {
          if !Reconcile.Known(messages, e) {
            unmatched := unmatched + 1;
          }
        }
        KnownStays(before, messages, e);
        assert entries[..k + 1][..k] == entries[..k];
        messages := seq(|messages|, i requires 0 <= i < |messages| reads this => Reconcile.Touch(messages[i], e, now));
        queued := queued + 1;
      }
      assert entries[..|entries|] == entries;
      var delivered := Reconcile.Departures(messages, entries, bounces, now, grace);
      SameDepartures(before, messages, entries, bounces, now, grace);
      messages := seq(|messages|, i requires 0 <= i < |messages| reads this =>
        if Reconcile.Departed(messages[i], entries, bounces, now, grace) then Reconcile.Deliver(messages[i], now)
        else messages[i]);
      forall i | 0 <= i < |before|
        ensures messages[i] == Reconcile.Reconciled(before[i], entries, bounces, now, grace)
      {
        DepartedUnheard(before[i], entries, bounces, now, grace);
      }
      counts := Counts(queued, delivered, unmatched);
      RowsAfter(before, messages, entries, bounces, now, grace);
    }

    method Suppress(
      now: Time, tenant: Option<nat>, address: string, reason: string, source: string, detail: Option<string>)
      modifies this`suppressions
      ensures suppressions == SuppressionList.Add(old(suppressions), now, tenant, address, reason, source, detail)
      ensures forall other: nat, rcpt :: SuppressionList.IsSuppressed(suppressions, other, rcpt) <==>
                || SuppressionList.IsSuppressed(old(suppressions), other, rcpt)
                || (Text.Lower(address) == Text.Lower(rcpt) && (tenant.None? || tenant == Some(other)))
      ensures SuppressionList.Unique(old(suppressions)) ==> SuppressionList.Unique(suppressions)
    {
      forall other: nat, rcpt {
        SuppressionList.AddAffects(suppressions, now, tenant, address, reason, source, detail, other, rcpt);
      }
      if SuppressionList.Unique(suppressions) {
        SuppressionList.AddKeepsUnique(suppressions, now, tenant, address, reason, source, detail);
      }
      suppressions := SuppressionList.Add(suppressions, now, tenant, address, reason, source, detail);
    }

    method Unsuppress(now: Time, id: nat, removedBy: string) returns (lifted: bool)
      modifies this`suppressions
      ensures (suppressions, lifted) == SuppressionList.Lift(old(suppressions), now, id, removedBy)
    {
      lifted := id < |suppressions| && SuppressionList.Active(suppressions[id]);
      if lifted {
        suppressions := suppressions[id := suppressions[id].(removedAt := Some(now), removedBy := Some(removedBy))];
      }
    }

    /** Take in one notification: a bounce row for each report in it, or for the raw text if there is
        none, and a global suppression for each report that calls for one. */
    method Ingest(now: Time, raw: string) returns (out: Ingested)
      modifies this`bounces, this`suppressions
      ensures All() == AfterNotification(old(All()), now, raw)
      ensures var reports := Dsn.Meaning(raw);
              && out == Ingested(
                          |reports|,
                          |set k | 0 <= k < |reports| && Dsn.ShouldSuppress(reports[k])
                                   && reports[k].finalRecipient.Some?|,
                          |set k | 0 <= k < |reports| && Unmatched(messages, reports[k])|)
              && (reports == [] ==>
                    && bounces == old(bounces) + [Bounce(raw, None, None, None, None, None, None)]
                    && suppressions == old(suppressions))
              && (reports != [] ==>
                    && |bounces| == |old(bounces)| + |reports|
                    && old(bounces) <= bounces
                    && forall k | 0 <= k < |reports| ::
                         bounces[|old(bounces)| + k] == BounceRow(messages, raw, reports[k]))
              && old(suppressions) <= suppressions
              && (forall i | |old(suppressions)| <= i < |suppressions| :: FromReports(suppressions[i], now, reports))
              && (forall k | 0 <= k < |reports| && Suppresses(reports[k]) ::
                    SuppressionList.Listed(suppressions, None, reports[k].finalRecipient.value))
              && (old(SuppressionList.Unique(suppressions)) ==> SuppressionList.Unique(suppressions))
    {
      hide Suppresses, Dsn.Meaning, AfterReport, AfterReports, Suppressing, Strays;
      ghost var db := All();
      var reports := Dsn.Parse(raw);
      ReportsLeave(db, now, raw, reports);
      SuppressingCount(reports);
      StraysCount(messages, reports);
      if reports == [] {
        bounces := bounces + [Bounce(raw, None, None, None, None, None, None)];
        NoReports(messages);
        return Ingested(0, 0, 0);
      }
      var suppressed, unmatched := 0, 0;
      NoReports(messages);
      for k := 0 to |reports|
        invariant All() == AfterReports(db, now, raw, reports[..k])
        invariant suppressed == Suppressing(reports[..k]) && unmatched == Strays(messages, reports[..k])
      {
        OneMoreReport(db, now, raw, reports, k);
        var matched := StoreReport(raw, reports[k]);
        if !matched {
          unmatched := unmatched + 1;
        }
        if Suppresses(reports[k]) {
          SuppressFor(now, reports[k]);
          suppressed := suppressed + 1;
        }
      }
      assert reports[..|reports|] == reports;
      out := Ingested(|reports|, suppressed, unmatched);
    }

    /** Insert the bounce row of one report, joined to its message by the queue id. */
    method StoreReport(raw: string, report: Dsn.Report) returns (matched: bool)
      modifies this`bounces
      ensures bounces == old(bounces) + [BounceRow(messages, raw, report)]
      ensures matched <==> ByQueueId(messages, report.relayQueueId).Some?
    {
      bounces := bounces + [BounceRow(messages, raw, report)];
      matched := ByQueueId(messages, report.relayQueueId).Some?;
    }

    /** A permanent failure about the recipient: the mailbox is gone for everyone. */
    method SuppressFor(now: Time, report: Dsn.Report)
      requires Suppresses(report)
      modifies this`suppressions
      ensures suppressions == SuppressionList.Add(old(suppressions), now, None, report.finalRecipient.value,
                                                  "hard_bounce", "dsn", report.diagnostic)
    {
      Suppress(now, None, report.finalRecipient.value, "hard_bounce", "dsn", report.diagnostic);
    }
  }

  // ---------------------------------------------------------- for proofs

  lemma KnownStays(before: seq<Message>, after: seq<Message>, e: QueueEntry)
    requires |before| == |after|
    requires forall i | 0 <= i < |before| :: Reconcile.Names(e, after[i]) <==> Reconcile.Names(e, before[i])
    ensures Reconcile.Known(after, e) <==> Reconcile.Known(before, e)
    ensures (exists i :: 0 <= i < |after| && Reconcile.Differs(after[i], e)) ==> Reconcile.Known(before, e)
  {
  }

  /** What the updates together did to the rows, and that the counts count it. */
  lemma RowsAfter(before: seq<Message>, after: seq<Message>, entries: seq<QueueEntry>, bounces: seq<Bounce>,
                now: Time, grace: Time)
    requires after == Reconcile.ReconcileAll(before, entries, bounces, now, grace)
    ensures forall i | 0 <= i < |after| ::
              var m := before[i];
              m.relayState != Some(Delivered) && after[i].relayState == Some(Delivered) <==>
                && m.relayState != Some(Delivered)
                && m.status == Sent && m.relayQueueId.Some?
                && m.completedAt.Some? && m.completedAt.value < now - grace
                && (forall k | 0 <= k < |entries| :: entries[k].queueId != m.relayQueueId.value)
                && forall b | 0 <= b < |bounces| :: bounces[b].relayQueueId != m.relayQueueId
    ensures Reconcile.Departures(before, entries, bounces, now, grace) ==
              |set i | 0 <= i < |after| && before[i].relayState != Some(Delivered)
                       && after[i].relayState == Some(Delivered)|
    ensures Reconcile.Unmatched(before, entries)
         == |set k | 0 <= k < |entries| && Reconcile.NobodyHas(before, entries[k].queueId)|
  {
    Reconcile.DeparturesCount(before, entries, bounces, now, grace);
    Reconcile.UnmatchedCount(before, entries);
    hide Reconcile.Reconciled, Reconcile.NobodyHas, Reconcile.Departures, Reconcile.Unmatched;
    forall i | 0 <= i < |after| {
      Reconcile.BecomesDeliveredByDeparting(before[i], entries, bounces, now, grace);
    }
    assert (set i | 0 <= i < |after| && before[i].relayState != Some(Delivered)
                    && after[i].relayState == Some(Delivered))
        == set i | 0 <= i < |before| && Reconcile.BecomesDelivered(before[i], entries, bounces, now, grace);
  }

  /** The entries say nothing about a message that is absent from them, and only absent ones depart. */
  lemma DepartedUnheard(m: Message, entries: seq<QueueEntry>, bounces: seq<Bounce>, now: Time, grace: Time)
    ensures var h, departed := Reconcile.Heard(m, entries, now), Reconcile.Departed(m, entries, bounces, now, grace);
            && (Reconcile.Departed(h, entries, bounces, now, grace) <==> departed)
            && (departed ==> h == m)
  {
  }

  lemma {:induction false} SameDepartures(before: seq<Message>, heard: seq<Message>, entries: seq<QueueEntry>,
                                          bounces: seq<Bounce>, now: Time, grace: Time)
    requires |before| == |heard| && forall i | 0 <= i < |before| :: heard[i] == Reconcile.Heard(before[i], entries, now)
    ensures Reconcile.Departures(heard, entries, bounces, now, grace)
         == Reconcile.Departures(before, entries, bounces, now, grace)
  {
    if before != [] {
      var last := |before| - 1;
      SameDepartures(before[..last], heard[..last], entries, bounces, now, grace);
      DepartedUnheard(before[last], entries, bounces, now, grace);
    }
  }

  lemma NoReports(messages: seq<Message>)
    ensures Suppressing([]) == 0 && Strays(messages, []) == 0
    ensures forall db, now, raw :: AfterReports(db, now, raw, []) == db
  {
  }

  lemma OneMoreReport(db: Tables, now: Time, raw: string, reports: seq<Dsn.Report>, k: nat)
    requires k < |reports|
    ensures var before := AfterReports(db, now, raw, reports[..k]);
            var t := before.(bounces := before.bounces + [BounceRow(before.messages, raw, reports[k])]);
            AfterReports(db, now, raw, reports[..k + 1]) ==
              if Suppresses(reports[k])
              then t.(suppressions := SuppressionList.Add(t.suppressions, now, None, reports[k].finalRecipient.value,
                                                          "hard_bounce", "dsn", reports[k].diagnostic))
              else t
    ensures Suppressing(reports[..k + 1]) == Suppressing(reports[..k]) + if Suppresses(reports[k]) then 1 else 0
    ensures Strays(db.messages, reports[..k + 1]) ==
              Strays(db.messages, reports[..k])
              + if ByQueueId(db.messages, reports[k].relayQueueId).None? then 1 else 0
    ensures AfterReports(db, now, raw, reports[..k]).messages == db.messages
  {
    assert reports[..k + 1][..k] == reports[..k];
    SameMessages(db, now, raw, reports[..k]);
  }

  lemma {:induction false} SameMessages(db: Tables, now: Time, raw: string, reports: seq<Dsn.Report>)
    ensures AfterReports(db, now, raw, reports).messages == db.messages
  {
    if reports != [] {
      SameMessages(db, now, raw, reports[..|reports| - 1]);
    }
  }

  lemma {:induction false} ReportsLeave(db: Tables, now: Time, raw: string, reports: seq<Dsn.Report>)
    ensures var t := AfterReports(db, now, raw, reports);
            && t == db.(bounces := t.bounces, suppressions := t.suppressions)
            && |t.bounces| == |db.bounces| + |reports| && db.bounces <= t.bounces
            && (forall k | 0 <= k < |reports| :: t.bounces[|db.bounces| + k] == BounceRow(db.messages, raw, reports[k]))
            && db.suppressions <= t.suppressions
            && (forall i | |db.suppressions| <= i < |t.suppressions| :: FromReports(t.suppressions[i], now, reports))
            && (forall k | 0 <= k < |reports| && Suppresses(reports[k]) ::
                  SuppressionList.Listed(t.suppressions, None, reports[k].finalRecipient.value))
            && (SuppressionList.Unique(db.suppressions) ==> SuppressionList.Unique(t.suppressions))
  {
    hide Dsn.ShouldSuppress, BounceRow, SuppressionList.Listed, SuppressionList.Unique, SuppressionList.Add;
    if reports != [] {
      var n := |reports| - 1;
      var front := reports[..n];
      ReportsLeave(db, now, raw, front);
      var t := AfterReports(db, now, raw, front);
      MoreReports(t.suppressions, now, |db.suppressions|, reports, n);
      if Suppresses(reports[n]) {
        AddedFromReport(t.suppressions, now, reports, n);
      }
      hide FromReports;
      assert forall k | 0 <= k < n :: reports[k] == front[k];
    }
  }

  /** What a notification leaves behind. For each report in order a bounce row with the text, the report's
      own words and class, and the message that has its queue id, if there is one; on the suppression
      list, for everyone, the recipient of every report that calls for it, and no address active twice
      in one scope. */
  lemma AfterReportsMeans(db: Tables, now: Time, raw: string, reports: seq<Dsn.Report>)
    ensures var t := AfterReports(db, now, raw, reports);
            && t == db.(bounces := t.bounces, suppressions := t.suppressions)
            && |t.bounces| == |db.bounces| + |reports| && db.bounces <= t.bounces && db.suppressions <= t.suppressions
            && (forall k | 0 <= k < |reports| ::
                  var r, b := reports[k], t.bounces[|db.bounces| + k];
                  && b == Bounce(raw, r.relayQueueId, b.message, r.finalRecipient, r.status, r.diagnostic,
                                 Some(if r.classification == Dsn.Permanent then "permanent"
                                      else if r.classification == Dsn.Transient then "transient" else "unknown"))
                  && (b.message.Some? ==>
                        b.message.value < |db.messages| && r.relayQueueId.Some?
                        && db.messages[b.message.value].relayQueueId == r.relayQueueId)
                  && (b.message.None? && r.relayQueueId.Some? ==>
                        forall i | 0 <= i < |db.messages| :: db.messages[i].relayQueueId != r.relayQueueId))
            && (forall k | 0 <= k < |reports| && Dsn.ShouldSuppress(reports[k]) && reports[k].finalRecipient.Some? ::
                  exists i :: 0 <= i < |t.suppressions| && t.suppressions[i].tenant.None?
                              && t.suppressions[i].removedAt.None?
                              && Text.Lower(t.suppressions[i].address)
                                 == Text.Lower(reports[k].finalRecipient.value))
            && (SuppressionList.Unique(db.suppressions) ==> SuppressionList.Unique(t.suppressions))
  {
    ReportsLeave(db, now, raw, reports);
    hide Dsn.ShouldSuppress, SuppressionList.Unique, AfterReports, Text.Lower, FromReports;
    var t := AfterReports(db, now, raw, reports);
    forall k | 0 <= k < |reports| && Dsn.ShouldSuppress(reports[k]) && reports[k].finalRecipient.Some?
      ensures exists i :: 0 <= i < |t.suppressions| && t.suppressions[i].tenant.None?
                          && t.suppressions[i].removedAt.None?
                          && Text.Lower(t.suppressions[i].address)
                             == Text.Lower(reports[k].finalRecipient.value)
    {
      assert SuppressionList.Listed(t.suppressions, None, reports[k].finalRecipient.value);
      var i :| 0 <= i < |t.suppressions|
               && SuppressionList.SameKey(t.suppressions[i], None, reports[k].finalRecipient.value);
      assert t.suppressions[i].removedAt.None?;
    }
  }

  /** Every new row of the suppression list is there for everyone because of one of the reports, and says
      so. */
  lemma NewSuppressionIs(db: Tables, now: Time, raw: string, reports: seq<Dsn.Report>, i: nat) returns (k: nat)
    requires |db.suppressions| <= i < |AfterReports(db, now, raw, reports).suppressions|
    ensures k < |reports| && Dsn.ShouldSuppress(reports[k]) && reports[k].finalRecipient.Some?
    ensures AfterReports(db, now, raw, reports).suppressions[i] ==
              Suppression(None, reports[k].finalRecipient.value, "hard_bounce", "dsn", reports[k].diagnostic,
                          now, None, None)
  {
    ReportsLeave(db, now, raw, reports);
    hide Dsn.ShouldSuppress, AfterReports;
    var row := AfterReports(db, now, raw, reports).suppressions[i];
    assert FromReports(row, now, reports);
    k :| 0 <= k < |reports| && Suppresses(reports[k])
         && row == Suppression(None, reports[k].finalRecipient.value, "hard_bounce", "dsn",
                               reports[k].diagnostic, now, None, None);
  }

  /** No message has the report's queue id, or it has none. */
  predicate Unmatched(messages: seq<Message>, r: Dsn.Report) {
    r.relayQueueId.None? || forall i | 0 <= i < |messages| :: messages[i].relayQueueId != r.relayQueueId
  }

  lemma {:induction false} SuppressingCount(reports: seq<Dsn.Report>)
    ensures Suppressing(reports)
         == |set k | 0 <= k < |reports| && Dsn.ShouldSuppress(reports[k]) && reports[k].finalRecipient.Some?|
  {
    hide Dsn.ShouldSuppress;
    if reports != [] {
      var n := |reports| - 1;
      var front := reports[..n];
      SuppressingCount(front);
      var all := set k | 0 <= k < |reports| && Dsn.ShouldSuppress(reports[k]) && reports[k].finalRecipient.Some?;
      var before := set k | 0 <= k < |front| && Dsn.ShouldSuppress(front[k]) && front[k].finalRecipient.Some?;
      assert all == if Suppresses(reports[n]) then before + {n} else before;
    }
  }

  lemma {:induction false} StraysCount(messages: seq<Message>, reports: seq<Dsn.Report>)
    ensures Strays(messages, reports) == |set k | 0 <= k < |reports| && Unmatched(messages, reports[k])|
  {
    if reports != [] {
      var n := |reports| - 1;
      var front := reports[..n];
      StraysCount(messages, front);
      assert ByQueueId(messages, reports[n].relayQueueId).None? <==> Unmatched(messages, reports[n]);
      hide Unmatched, ByQueueId;
      var all := set k | 0 <= k < |reports| && Unmatched(messages, reports[k]);
      var before := set k | 0 <= k < |front| && Unmatched(messages, front[k]);
      assert all == if Unmatched(messages, reports[n]) then before + {n} else before;
    }
  }

  /** A row that is there because of the first reports is there because of all of them. */
  lemma MoreReports(rows: seq<Suppression>, now: Time, from: nat, reports: seq<Dsn.Report>, n: nat)
    requires n <= |reports|
    requires forall i | from <= i < |rows| :: FromReports(rows[i], now, reports[..n])
    ensures forall i | from <= i < |rows| :: FromReports(rows[i], now, reports)
  {
  }

  lemma AddedFromReport(before: seq<Suppression>, now: Time, reports: seq<Dsn.Report>, k: nat)
    requires k < |reports| && Suppresses(reports[k])
    ensures var address := reports[k].finalRecipient.value;
            var after := SuppressionList.Add(before, now, None, address, "hard_bounce", "dsn", reports[k].diagnostic);
            && before <= after
            && (forall i | |before| <= i < |after| :: FromReports(after[i], now, reports))
            && SuppressionList.Listed(after, None, address)
            && (forall a | SuppressionList.Listed(before, None, a) :: SuppressionList.Listed(after, None, a))
            && (SuppressionList.Unique(before) ==> SuppressionList.Unique(after))
  {
  }
}
