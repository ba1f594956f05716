/** The queue as the database keeps it: what each statement that accepts, claims or settles a
    message does to the tables. */
module Queue {
  import opened Wrappers
  import opened Schema
  import opened Text
  import Retry
  import SuppressionList

  /** How long a claim may sit before another worker may take the message. */
  const CLAIM_TIMEOUT: Time := 10 * MINUTE

  // ---------------------------------------------------------------- accept

  /** The row a tenant already has under an idempotency key. */
  function Lookup(messages: seq<Message>, tenant: nat, key: string): (r: Option<nat>)
    ensures r.Some? ==> r.value < |messages|
                        && messages[r.value].tenant == tenant && messages[r.value].key == key
    ensures r.None? ==> forall i | 0 <= i < |messages| :: !(messages[i].tenant == tenant && messages[i].key == key)
  {
    if messages == [] then None
    else
      var last := |messages| - 1;
      if messages[last].tenant == tenant && messages[last].key == key then Some(last)
      else Lookup(messages[..last], tenant, key)
  }

  function NewMessage(now: Time, draft: Draft, suppressed: bool): Message {
    Message(draft.tenant, draft.key, draft.content,
            if suppressed then Suppressed else Queued, 0, now, None, None, None, None,
            if suppressed then Some(now) else None, None, None, None, None)
  }

  function AttachmentRows(id: nat, files: seq<Attachment>): (r: seq<AttachmentRow>)
    ensures |r| == |files|
    ensures forall k | 0 <= k < |files| :: r[k] == AttachmentRow(id, k, files[k])
  {
    seq(|files|, k requires 0 <= k < |files| => AttachmentRow(id, k, files[k]))
  }

  datatype Receipt = Receipt(id: nat, status: Status, deduplicated: bool)

  function Accept(db: Tables, now: Time, draft: Draft): (r: (Tables, Receipt))
    ensures r.1.id < |r.0.messages|
    ensures r.0.messages[r.1.id].tenant == draft.tenant && r.0.messages[r.1.id].key == draft.key
    ensures r.1.status == r.0.messages[r.1.id].status
    ensures r.1.deduplicated <==> Lookup(db.messages, draft.tenant, draft.key).Some?
  {
    match Lookup(db.messages, draft.tenant, draft.key)
    case Some(id) => (db, Receipt(id, db.messages[id].status, true))
    case None =>
      var suppressed := SuppressionList.IsSuppressed(db.suppressions, draft.tenant, draft.content.rcptTo);
      var row := NewMessage(now, draft, suppressed);
      var id := |db.messages|;
      (db.(messages := db.messages + [row],
           attachments := db.attachments + AttachmentRows(id, draft.attachments)),
       Receipt(id, row.status, false))
  }

  // ----------------------------------------------------------------- claim

  predicate Claimable(m: Message, now: Time) {
    && m.status.Queued?
    && m.nextAttemptAt <= now
    && (m.claimedAt.None? || m.claimedAt.value < now - CLAIM_TIMEOUT)
  }

  /** A new message is suppressed exactly if an active row of the list has its address, in any case, for
      everyone or for its tenant; otherwise it can be claimed from now on. */
  lemma NewMessageIs(db: Tables, now: Time, draft: Draft)
    requires Lookup(db.messages, draft.tenant, draft.key).None?
    ensures var (db', receipt) := Accept(db, now, draft);
            var row := db'.messages[receipt.id];
            var suppressed :=
              exists i :: 0 <= i < |db.suppressions| && db.suppressions[i].removedAt.None?
                          && Lower(db.suppressions[i].address) == Lower(draft.content.rcptTo)
                          && (db.suppressions[i].tenant.None? || db.suppressions[i].tenant == Some(draft.tenant));
            && receipt == Receipt(|db.messages|, if suppressed then Suppressed else Queued, false)
            && db'.messages == db.messages + [row] && row.status == receipt.status && row.attempts == 0
            && row.completedAt == (if suppressed then Some(now) else None)
            && row.relayQueueId.None? && row.relayState.None?
            && forall at :: Claimable(row, at) <==> !suppressed && at >= now
  {
    if SuppressionList.IsSuppressed(db.suppressions, draft.tenant, draft.content.rcptTo) {
      var i :| 0 <= i < |db.suppressions|
               && SuppressionList.Blocks(db.suppressions[i], draft.tenant, draft.content.rcptTo);
      assert db.suppressions[i].removedAt.None?;
    } else {
      forall i | 0 <= i < |db.suppressions|
        ensures !SuppressionList.Blocks(db.suppressions[i], draft.tenant, draft.content.rcptTo)
      {
      }
    }
  }

  /** May one claim return exactly `ids`, when other transactions hold the rows in `locked`? It takes
      claimable rows nobody else has locked, at most `batch` of them, and leaves one behind only if
      the batch is full of rows due no later. */
  predicate IsPick(messages: seq<Message>, now: Time, locked: set<nat>, batch: nat, ids: seq<nat>) {
    && |ids| <= batch
    && Distinct(ids)
    && (forall k | 0 <= k < |ids| ::
          ids[k] < |messages| && ids[k] !in locked && Claimable(messages[ids[k]], now))
    && (forall i | 0 <= i < |messages| && i !in locked && i !in ids && Claimable(messages[i], now) ::
          |ids| == batch
          && forall k | 0 <= k < |ids| :: messages[ids[k]].nextAttemptAt <= messages[i].nextAttemptAt)
  }

  function Marked(messages: seq<Message>, ids: seq<nat>, worker: string, now: Time): (r: seq<Message>)
    ensures |r| == |messages|
    ensures forall i | 0 <= i < |messages| ::
              r[i] == if i in ids then messages[i].(claimedAt := Some(now), claimedBy := Some(worker))
                      else messages[i]
  {
    seq(|messages|, i requires 0 <= i < |messages| =>
      if i in ids then messages[i].(claimedAt := Some(now), claimedBy := Some(worker)) else messages[i])
  }

  // ---------------------------------------------------------------- settle

  /** The relay took the message. */
  function RecordAccepted(db: Tables, now: Time, id: nat, attempt: nat, queueId: Option<string>): Tables
    requires id < |db.messages|
  {
    var m := db.messages[id];
    db.(messages := db.messages[id := m.(
          status := Sent, attempts := attempt, relayQueueId := queueId, claimedAt := None, claimedBy := None,
          completedAt := Some(now), lastError := None)],
        log := db.log + [Attempt(id, attempt, Taken, now, Some(250), queueId, None)])
  }

  /** The relay refused for now: the status stays, the next attempt is put off. */
  function RecordTransient(db: Tables, now: Time, id: nat, attempt: nat, code: Option<int>, detail: string,
                           retryIn: Time): Tables
    requires id < |db.messages|
  {
    var m := db.messages[id];
    db.(messages := db.messages[id := m.(
          attempts := attempt, nextAttemptAt := now + retryIn, lastError := Some(detail),
          claimedAt := None, claimedBy := None)],
        log := db.log + [Attempt(id, attempt, Transient, now, code, None, Some(detail))])
  }

  /** A permanent failure, or the schedule ran out. */
  function RecordFailed(db: Tables, now: Time, id: nat, attempt: nat, code: Option<int>, detail: string): Tables
    requires id < |db.messages|
  {
    var m := db.messages[id];
    db.(messages := db.messages[id := m.(
          status := Failed, attempts := attempt, lastError := Some(detail),
          claimedAt := None, claimedBy := None, completedAt := Some(now))],
        log := db.log + [Attempt(id, attempt, Permanent, now, code, None, Some(detail))])
  }

  /** What a worker that claimed the message after `made` attempts writes for the relay's outcome. */
  function Settle(db: Tables, now: Time, id: nat, made: nat, outcome: Outcome): Tables
    requires id < |db.messages|
  {
    var attempt := made + 1;
    match outcome
    case Accepted(queueId) => RecordAccepted(db, now, id, attempt, queueId)
    case Refusal(code, detail) => RecordFailed(db, now, id, attempt, code, detail)
    case Deferral(code, detail) =>
      match Retry.Backoff(attempt)
      case Some(delay) => RecordTransient(db, now, id, attempt, code, detail, delay * SECOND)
      case None =>
        RecordFailed(db, now, id, attempt, code, "giving up after " + Decimal(attempt) + " attempts: " + detail)
  }

  // ----------------------------------------------------------------- purge

  /** Finished more than `days` ago, and not blanked yet. */
  predicate PurgeDue(m: Message, now: Time, days: int) {
    m.completedAt.Some? && m.completedAt.value < now - days * DAY && m.bodyPurgedAt.None?
  }

  function Blanked(content: Content): Content {
    content.(bodyText := None, bodyHtml := None)
  }

  function BlankedRow(m: Message, now: Time): Message {
    m.(content := Blanked(m.content), bodyPurgedAt := Some(now))
  }

  /** The messages a purge is for. */
  function PurgeIds(messages: seq<Message>, now: Time, days: int): set<nat> {
    set i | 0 <= i < |messages| && PurgeDue(messages[i], now, days)
  }

  /** The attachments of all other messages. */
  function Remaining(table: seq<AttachmentRow>, gone: set<nat>): seq<AttachmentRow> {
    if table == [] then []
    else
      var front, last := Remaining(table[..|table| - 1], gone), table[|table| - 1];
      if last.message in gone then front else front + [last]
  }

  /** Delete the files and blank the bodies of what has been finished for long enough. */
  function Purge(db: Tables, now: Time, days: int): Tables {
    db.(messages := seq(|db.messages|, i requires 0 <= i < |db.messages| =>
          if PurgeDue(db.messages[i], now, days) then BlankedRow(db.messages[i], now) else db.messages[i]),
        attachments := Remaining(db.attachments, PurgeIds(db.messages, now, days)))
  }

  /** The verdict the log keeps for an outcome at an attempt. */
  function VerdictOf(outcome: Outcome, attempt: nat): Verdict {
    if outcome.Accepted? then Taken
    else if outcome.Deferral? && attempt < Retry.LAST_ATTEMPT then Transient
    else Permanent
  }
}
