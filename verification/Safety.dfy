/** What every run keeps, with no assumption about timing at all. */
module Safety {
  import opened Wrappers
  import opened Schema
  import opened Protocol
  import Queue
  import Reconcile
  import Retry
  import SuppressionList
  import Attachments
  import Text

  /** Attempts never pass the schedule; a message that can still be tried has tries left, and is
      neither completed nor blanked. */
  predicate RowSane(m: Message) {
    && m.attempts <= Retry.LAST_ATTEMPT
    && (m.status.Queued? ==> m.attempts < Retry.LAST_ATTEMPT && m.completedAt.None?)
    && (m.status.Suppressed? ==> m.attempts == 0)
    && (m.completedAt.None? ==> m.bodyPurgedAt.None?)
  }

  predicate RowsSane(messages: seq<Message>) {
    forall i | 0 <= i < |messages| :: RowSane(messages[i])
  }

  /** One row per tenant and idempotency key. */
  predicate KeysUnique(messages: seq<Message>) {
    forall i, k | 0 <= i < k < |messages| ::
      !(messages[i].tenant == messages[k].tenant && messages[i].key == messages[k].key)
  }

  /** A worker only ever holds a message that was queued, with tries left. */
  predicate JobSane(messages: seq<Message>, job: Job) {
    job.message < |messages| && job.made < Retry.LAST_ATTEMPT && !messages[job.message].status.Suppressed?
  }

  predicate JobsSane(messages: seq<Message>, jobs: seq<Job>) {
    forall j | 0 <= j < |jobs| :: JobSane(messages, jobs[j])
  }

  ghost predicate Sane(s: System) {
    && RowsSane(s.db.messages)
    && KeysUnique(s.db.messages)
    && JobsSane(s.db.messages, s.jobs)
    && SuppressionList.Unique(s.db.suppressions)
    && Attachments.Bounded(s.db.attachments, |s.db.messages|)
  }

  lemma SubmitKeepsSane(s: System, draft: Draft)
    requires Sane(s)
    ensures Sane(Apply(s, Submit(draft)))
  {
  }

  /** Keys stay unique, and jobs sane, while no row changes its key or becomes suppressed. */
  lemma SameKeysKeepSane(ms: seq<Message>, ms': seq<Message>)
    requires KeysUnique(ms) && |ms'| == |ms|
    requires forall i | 0 <= i < |ms| ::
               ms'[i].tenant == ms[i].tenant && ms'[i].key == ms[i].key
               && (ms'[i].status.Suppressed? ==> ms[i].status.Suppressed?)
    ensures KeysUnique(ms')
    ensures forall job | JobSane(ms, job) :: JobSane(ms', job)
  {
  }

  lemma SettledRowIsSane(db: Tables, now: Time, id: nat, made: nat, outcome: Outcome)
    requires id < |db.messages| && RowSane(db.messages[id])
    requires made < Retry.LAST_ATTEMPT && !db.messages[id].status.Suppressed?
    ensures var db' := Queue.Settle(db, now, id, made, outcome);
            && db' == db.(messages := db.messages[id := db'.messages[id]], log := db'.log)
            && RowSane(db'.messages[id]) && !db'.messages[id].status.Suppressed?
            && db'.messages[id].tenant == db.messages[id].tenant && db'.messages[id].key == db.messages[id].key
  {
  }

  lemma RecordKeepsSane(s: System, j: nat)
    requires Sane(s) && Enabled(s, Record(j))
    ensures Sane(Apply(s, Record(j)))
  {
    var s' := Apply(s, Record(j));
    var job := s.jobs[j];
    assert JobSane(s.db.messages, job);
    SettledRowIsSane(s.db, s.now, job.message, job.made, job.phase.outcome);
    hide Queue.Settle, RowSane, KeysUnique, SuppressionList.Unique, Attachments.Bounded;
    SameKeysKeepSane(s.db.messages, s'.db.messages);
    assert forall k | 0 <= k < |s.jobs| :: JobSane(s.db.messages, s.jobs[k]) ==> JobSane(s'.db.messages, s'.jobs[k]);
  }

  lemma ClaimKeepsSane(s: System, step: Step)
    requires Sane(s) && step.Claim? && Enabled(s, step)
    ensures Sane(Apply(s, step))
  {
    var s' := Apply(s, step);
    forall j | 0 <= j < |s'.jobs|
      ensures JobSane(s'.db.messages, s'.jobs[j])
    {
      if j < |s.jobs| {
        assert JobSane(s.db.messages, s.jobs[j]);
      } else {
        assert RowSane(s.db.messages[step.ids[j - |s.jobs|]]);
      }
    }
  }

  lemma ReportKeepsSane(s: System, k: nat)
    requires Sane(s) && Enabled(s, Report(k))
    ensures Sane(Apply(s, Report(k)))
  {
    var s' := Apply(s, Report(k));
    ReportKeeps(s, k);
    assert forall j | 0 <= j < |s.jobs| :: JobSane(s.db.messages, s.jobs[j]) ==> JobSane(s'.db.messages, s.jobs[j]);
  }

  lemma PurgeKeepsSane(s: System, days: int)
    requires Sane(s)
    ensures Sane(Apply(s, Purge(days)))
  {
    var s' := Apply(s, Purge(days));
    PurgeKeeps(s, days);
    hide Queue.Purge, Queue.Remaining, KeysUnique, SuppressionList.Unique, Attachments.Bounded;
    Attachments.RemainingIsExact(s.db.attachments, Queue.PurgeIds(s.db.messages, s.now, days), |s.db.messages|, 0);
    SameKeysKeepSane(s.db.messages, s'.db.messages);
    PurgedRowsAreSane(s.db.messages, s'.db.messages, s.now, days);
  }

  lemma PurgedRowsAreSane(ms: seq<Message>, ms': seq<Message>, now: Time, days: int)
    requires RowsSane(ms) && |ms'| == |ms|
    requires forall i | 0 <= i < |ms| ::
               ms'[i] == if Queue.PurgeDue(ms[i], now, days) then Queue.BlankedRow(ms[i], now) else ms[i]
    ensures RowsSane(ms')
  {
  }

  lemma StepKeepsSane(s: System, step: Step)
    requires Sane(s) && Enabled(s, step)
    ensures Sane(Apply(s, step))
  {
    match step
    case Submit(draft) => SubmitKeepsSane(s, draft);
    case Claim(_, _, _, _) => ClaimKeepsSane(s, step);
    case Record(j) => RecordKeepsSane(s, j);
    case Report(k) => ReportKeepsSane(s, k);
    case Block(tenant, address, reason, source, detail) =>
      SuppressionList.AddKeepsUnique(s.db.suppressions, s.now, tenant, address, reason, source, detail);
    case Unblock(id, actor) =>
      SuppressionList.LiftKeepsUnique(s.db.suppressions, s.now, id, actor);
    case HandOver(j, _) => assert JobSane(s.db.messages, s.jobs[j]);
    case Vanish(j) => assert JobSane(s.db.messages, s.jobs[j]);
    case Purge(days) => PurgeKeepsSane(s, days);
    case _ =>
  }

  /** Every reachable state is sane. */
  lemma {:induction false} RunKeepsSane(s: System, steps: seq<Step>)
    requires Sane(s) && Runs(s, steps)
    ensures Sane(After(s, steps))
    decreases |steps|
  {
    if steps != [] {
      StepKeepsSane(s, steps[0]);
      RunKeepsSane(Apply(s, steps[0]), steps[1..]);
    }
  }

  /** In every run from an empty database: at most nine attempts, at most eight while queued, one row to
      a tenant and key, one active row to a suppression scope and address. */
  lemma EveryRunIsSane(start: Time, steps: seq<Step>, i: nat)
    requires Runs(Start(start), steps) && i < |After(Start(start), steps).db.messages|
    ensures var db := After(Start(start), steps).db;
            && db.messages[i].attempts <= 9 && (db.messages[i].status.Queued? ==> db.messages[i].attempts <= 8)
            && (forall j, k | 0 <= j < k < |db.messages| ::
                  db.messages[j].tenant != db.messages[k].tenant || db.messages[j].key != db.messages[k].key)
            && (forall j, k | 0 <= j < k < |db.suppressions| ::
                  var a, b := db.suppressions[j], db.suppressions[k];
                  a.removedAt.None? && b.removedAt.None? ==>
                    a.tenant != b.tenant || Text.Lower(a.address) != Text.Lower(b.address))
  {
    RunKeepsSane(Start(start), steps);
    assert RowSane(After(Start(start), steps).db.messages[i]);
  }

  /** What a message carries, its content and its files, is as it was, or a purge has since taken its
      bodies and all its files. */
  predicate SameOrPurged(m: Message, files: seq<AttachmentRow>, m': Message, files': seq<AttachmentRow>) {
    if m'.bodyPurgedAt == m.bodyPurgedAt then m'.content == m.content && files' == files
    else m.bodyPurgedAt.None? && m'.content == Queue.Blanked(m.content) && files' == []
  }

  /** What never goes back: rows and logs only grow, content is never edited but for one purge, a
      finished message never becomes queued again, and a suppressed one stays exactly that. */
  ghost predicate Grows(s: System, s': System) {
    && s.now <= s'.now
    && s.db.log <= s'.db.log
    && |s.db.messages| <= |s'.db.messages|
    && (forall i | 0 <= i < |s.db.messages| ::
          var m, m' := s.db.messages[i], s'.db.messages[i];
          && m'.tenant == m.tenant && m'.key == m.key
          && SameOrPurged(m, Attachments.RowsOf(s.db.attachments, i), m', Attachments.RowsOf(s'.db.attachments, i))
          && (!m.status.Queued? ==> !m'.status.Queued?)
          && (m.status.Suppressed? ==> m'.status.Suppressed?))
  }

  lemma SubmitGrows(s: System, draft: Draft)
    requires Sane(s)
    ensures Grows(s, Apply(s, Submit(draft)))
  {
    var s' := Apply(s, Submit(draft));
    forall i | 0 <= i < |s.db.messages|
      ensures Attachments.RowsOf(s'.db.attachments, i) == Attachments.RowsOf(s.db.attachments, i)
    {
      Attachments.FilingIsExact(s.db.attachments, |s.db.messages|, draft.attachments, i);
    }
  }

  lemma PurgeGrows(s: System, days: int)
    ensures Grows(s, Apply(s, Purge(days)))
  {
    var s' := Apply(s, Purge(days));
    PurgeKeeps(s, days);
    var gone := Queue.PurgeIds(s.db.messages, s.now, days);
    hide Queue.Remaining, Attachments.RowsOf;
    forall i | 0 <= i < |s.db.messages|
      ensures SameOrPurged(s.db.messages[i], Attachments.RowsOf(s.db.attachments, i),
                           s'.db.messages[i], Attachments.RowsOf(s'.db.attachments, i))
    {
      Attachments.RemainingIsExact(s.db.attachments, gone, |s.db.messages|, i);
    }
  }

  lemma ReportGrows(s: System, k: nat)
    requires Enabled(s, Report(k))
    ensures Grows(s, Apply(s, Report(k)))
  {
  }

  lemma StepGrows(s: System, step: Step)
    requires Sane(s) && Enabled(s, step)
    ensures Grows(s, Apply(s, step))
  {
    match step
    case Report(k) => ReportGrows(s, k);
    case Submit(draft) => SubmitGrows(s, draft);
    case Purge(days) => PurgeGrows(s, days);
    case Record(j) => RecordGrows(s, j);
    case _ =>
  }

  lemma RecordGrows(s: System, j: nat)
    requires Sane(s) && Enabled(s, Record(j))
    ensures Grows(s, Apply(s, Record(j)))
  {
    assert JobSane(s.db.messages, s.jobs[j]);
    hide Sane, Attachments.RowsOf;
  }

  lemma GrowsOn(s: System, t: System, u: System)
    requires Grows(s, t) && Grows(t, u)
    ensures Grows(s, u)
  {
  }

  lemma {:induction false} RunGrows(s: System, steps: seq<Step>)
    requires Sane(s) && Runs(s, steps)
    ensures Grows(s, After(s, steps))
    decreases |steps|
  {
    if steps != [] {
      hide Grows, Sane, Apply, Enabled;
      StepGrows(s, steps[0]);
      StepKeepsSane(s, steps[0]);
      RunGrows(Apply(s, steps[0]), steps[1..]);
      GrowsOn(s, Apply(s, steps[0]), After(s, steps));
    } else {
      hide Sane;
    }
  }

  // ---------------------------------------------------------- idempotency

  /** A submission and every later resubmission under its key, whatever happened in between: the first
      id comes back, nothing is written, and what the first one carried is still what is stored, unless
      it has been purged. */
  lemma Resubmission(s: System, draft: Draft, steps: seq<Step>, again: Draft)
    requires Sane(s) && Runs(Apply(s, Submit(draft)), steps)
    requires again.tenant == draft.tenant && again.key == draft.key
    ensures var s1 := Apply(s, Submit(draft));
            var id := Queue.Accept(s.db, s.now, draft).1.id;
            var s2 := After(s1, steps);
            && id < |s1.db.messages| <= |s2.db.messages|
            && Queue.Accept(s2.db, s2.now, again) == (s2.db, Queue.Receipt(id, s2.db.messages[id].status, true))
            && var m1, m2 := s1.db.messages[id], s2.db.messages[id];
               var files1 := Attachments.FilesOf(s1.db.attachments, id);
               var files2 := Attachments.FilesOf(s2.db.attachments, id);
               && m2.tenant == again.tenant && m2.key == again.key
               && if m2.bodyPurgedAt == m1.bodyPurgedAt then m2.content == m1.content && files2 == files1
                  else m2.content == m1.content.(bodyText := None, bodyHtml := None) && files2 == []
  {
    var s1 := Apply(s, Submit(draft));
    var id := Queue.Accept(s.db, s.now, draft).1.id;
    StepKeepsSane(s, Submit(draft));
    RunKeepsSane(s1, steps);
    RunGrows(s1, steps);
    var s2 := After(s1, steps);
    var found := Queue.Lookup(s2.db.messages, again.tenant, again.key);
    assert s2.db.messages[id].tenant == again.tenant && s2.db.messages[id].key == again.key;
    assert found == Some(id);
    Attachments.NoRowsNoFiles(s2.db.attachments, id);
  }

  /** A new submission is stored as it came: its content in the row, its files in their order. */
  lemma SubmissionIsStored(s: System, draft: Draft)
    requires Sane(s) && Queue.Lookup(s.db.messages, draft.tenant, draft.key).None?
    ensures var s1 := Apply(s, Submit(draft));
            var id := Queue.Accept(s.db, s.now, draft).1.id;
            && id == |s.db.messages| && |s1.db.messages| == id + 1
            && s1.db.messages[id].content == draft.content && s1.db.messages[id].bodyPurgedAt.None?
            && Attachments.StoredAs(s1.db.attachments, id, draft.attachments)
  {
    Attachments.FilingIsExact(s.db.attachments, |s.db.messages|, draft.attachments, |s.db.messages|);
  }

  /** An accepted message after any run: until it is purged, and so for as long as it is queued, it has
      the content and the files that were submitted, in the same order. After a purge it has no bodies
      and no files, and the rest of its content. */
  lemma SubmissionStays(s: System, draft: Draft, steps: seq<Step>)
    requires Sane(s) && Queue.Lookup(s.db.messages, draft.tenant, draft.key).None?
    requires Runs(Apply(s, Submit(draft)), steps)
    ensures var s2 := After(Apply(s, Submit(draft)), steps);
            var id := Queue.Accept(s.db, s.now, draft).1.id;
            && id < |s2.db.messages|
            && var m, files := s2.db.messages[id], Attachments.FilesOf(s2.db.attachments, id);
               && (m.status.Queued? ==> m.bodyPurgedAt.None?)
               && (m.bodyPurgedAt.None? ==> m.content == draft.content && files == draft.attachments)
               && (m.bodyPurgedAt.Some? ==>
                     m.content == draft.content.(bodyText := None, bodyHtml := None) && files == [])
  {
    SubmissionIsStored(s, draft);
    StepKeepsSane(s, Submit(draft));
    var s1 := Apply(s, Submit(draft));
    var id := |s.db.messages|;
    RunGrows(s1, steps);
    RunKeepsSane(s1, steps);
    var s2 := After(s1, steps);
    assert RowSane(s2.db.messages[id]);
    hide Sane, Runs, After, Apply, Queue.Accept, Queue.Lookup;
    Attachments.StoredComesBack(s1.db.attachments, id, draft.attachments);
    Attachments.NoRowsNoFiles(s2.db.attachments, id);
  }

  /** So every claim, after any run, is given exactly what was submitted. */
  lemma SubmissionIsDelivered(s: System, draft: Draft, steps: seq<Step>, claim: Step)
    requires Sane(s) && Queue.Lookup(s.db.messages, draft.tenant, draft.key).None?
    requires Runs(Apply(s, Submit(draft)), steps)
    requires claim.Claim? && Enabled(After(Apply(s, Submit(draft)), steps), claim)
    requires Queue.Accept(s.db, s.now, draft).1.id in claim.ids
    ensures var s2 := Apply(After(Apply(s, Submit(draft)), steps), claim);
            var id := Queue.Accept(s.db, s.now, draft).1.id;
            && id < |s2.db.messages|
            && s2.db.messages[id].content == draft.content
            && Attachments.FilesOf(s2.db.attachments, id) == draft.attachments
  {
    SubmissionStays(s, draft, steps);
    var s1 := After(Apply(s, Submit(draft)), steps);
    assert Queue.Claimable(s1.db.messages[Queue.Accept(s.db, s.now, draft).1.id], s1.now);
  }

  // ------------------------------------------------------------ retention

  /** Every purge of the run spares what was finished less than `days` ago. */
  predicate Spares(steps: seq<Step>, days: int) {
    forall k | 0 <= k < |steps| && steps[k].Purge? :: steps[k].days >= days
  }

  /** Not finished before `since`, and not purged until `days` after it. */
  predicate Retained(m: Message, since: Time, days: int) {
    && (m.completedAt.Some? ==> m.completedAt.value >= since)
    && (m.bodyPurgedAt.Some? ==> m.bodyPurgedAt.value > since + days * DAY)
  }

  lemma StepRetains(s: System, step: Step, i: nat, since: Time, days: int)
    requires Enabled(s, step) && (step.Purge? ==> step.days >= days)
    requires i < |s.db.messages| && since <= s.now && Retained(s.db.messages[i], since, days)
    ensures var s' := Apply(s, step);
            i < |s'.db.messages| && since <= s'.now && Retained(s'.db.messages[i], since, days)
  {
    if step.Report? {
      ReportKeeps(s, step.snapshot);
    } else if step.Purge? {
      PurgeKeeps(s, step.days);
      assert step.days * DAY >= days * DAY;
    }
  }

  /** What is finished at `since` or later keeps its bodies and files for at least `days` after it, if
      no purge of the run is for less. */
  lemma ContentIsRetained(s: System, steps: seq<Step>, i: nat, since: Time, days: int)
    requires Runs(s, steps) && forall k | 0 <= k < |steps| && steps[k].Purge? :: steps[k].days >= days
    requires i < |s.db.messages| && since <= s.now && s.db.messages[i].bodyPurgedAt.None?
    requires s.db.messages[i].completedAt.Some? ==> s.db.messages[i].completedAt.value >= since
    ensures var s' := After(s, steps);
            && i < |s'.db.messages|
            && (s'.db.messages[i].bodyPurgedAt.Some? ==>
                  s'.db.messages[i].bodyPurgedAt.value > since + days * 86_400_000_000)
  {
    RunRetains(s, steps, i, since, days);
  }

  lemma {:induction false} RunRetains(s: System, steps: seq<Step>, i: nat, since: Time, days: int)
    requires Runs(s, steps) && Spares(steps, days)
    requires i < |s.db.messages| && since <= s.now && Retained(s.db.messages[i], since, days)
    ensures var s' := After(s, steps); i < |s'.db.messages| && Retained(s'.db.messages[i], since, days)
    decreases |steps|
  {
    if steps != [] {
      hide Enabled, Apply, Retained;
      StepRetains(s, steps[0], i, since, days);
      RunRetains(Apply(s, steps[0]), steps[1..], i, since, days);
    }
  }

  // ------------------------------------------------------------- finality

  /** Once a message is not queued, no claim ever returns it again. */
  lemma FinishedIsNeverClaimed(s: System, i: nat, steps: seq<Step>, claim: Step)
    requires Sane(s) && Runs(s, steps)
    requires i < |s.db.messages| && !s.db.messages[i].status.Queued?
    requires claim.Claim? && Enabled(After(s, steps), claim)
    ensures i !in claim.ids
  {
    RunGrows(s, steps);
    var m := After(s, steps).db.messages[i];
    assert !Queue.Claimable(m, After(s, steps).now);
  }

  /** No step of the run records an outcome for message `i`. */
  ghost predicate Unrecorded(s: System, steps: seq<Step>, i: nat)
    requires Runs(s, steps)
    decreases |steps|
  {
    steps != [] ==>
      && (steps[0].Record? ==> s.jobs[steps[0].job].message != i)
      && Unrecorded(Apply(s, steps[0]), steps[1..], i)
  }

  /** Until something is recorded, a claimed row stays claimed, at that time or later. */
  lemma {:induction false} ClaimStands(s: System, steps: seq<Step>, i: nat, since: Time)
    requires Runs(s, steps) && Unrecorded(s, steps, i)
    requires i < |s.db.messages| && s.db.messages[i].claimedAt.Some?
    requires since <= s.db.messages[i].claimedAt.value <= s.now
    ensures var s' := After(s, steps);
            && i < |s'.db.messages| && s'.db.messages[i].claimedAt.Some?
            && since <= s'.db.messages[i].claimedAt.value
    decreases |steps|
  {
    if steps != [] {
      if steps[0].Report? {
        ReportKeeps(s, steps[0].snapshot);
      }
      ClaimStands(Apply(s, steps[0]), steps[1..], i, since);
    }
  }

  /** Two claims of one message with nothing recorded for it in between are more than ten minutes
      apart. */
  lemma ClaimsAreSpaced(s: System, first: Step, steps: seq<Step>, second: Step, i: nat)
    requires first.Claim? && Enabled(s, first) && i in first.ids
    requires Runs(Apply(s, first), steps) && Unrecorded(Apply(s, first), steps, i)
    requires second.Claim? && Enabled(After(Apply(s, first), steps), second) && i in second.ids
    ensures After(Apply(s, first), steps).now > s.now + 600_000_000
  {
    ClaimStands(Apply(s, first), steps, i, s.now);
    var s' := After(Apply(s, first), steps);
    assert Queue.Claimable(s'.db.messages[i], s'.now);
  }

  /** No step of the run claims message `i`. */
  predicate Unclaimed(steps: seq<Step>, i: nat) {
    forall k | 0 <= k < |steps| && steps[k].Claim? :: i !in steps[k].ids
  }

  lemma StepLeavesClaim(s: System, step: Step, i: nat)
    requires Enabled(s, step) && (step.Record? ==> s.jobs[step.job].message != i) && (step.Claim? ==> i !in step.ids)
    requires i < |s.db.messages| && s.db.messages[i].status.Queued? && s.db.messages[i].completedAt.None?
    ensures var s' := Apply(s, step);
            && i < |s'.db.messages| && s.now <= s'.now
            && var m, m' := s.db.messages[i], s'.db.messages[i];
               m'.status.Queued? && m'.completedAt.None? && m'.claimedAt == m.claimedAt
               && m'.nextAttemptAt == m.nextAttemptAt
  {
    if step.Report? {
      ReportKeeps(s, step.snapshot);
    } else if step.Purge? {
      PurgeKeeps(s, step.days);
    }
  }

  /** A message nobody records or claims stays exactly as its last claim left it. */
  lemma {:induction false} ClaimIsLeft(s: System, steps: seq<Step>, i: nat)
    requires Runs(s, steps) && Unrecorded(s, steps, i) && Unclaimed(steps, i)
    requires i < |s.db.messages| && s.db.messages[i].status.Queued? && s.db.messages[i].completedAt.None?
    ensures var s' := After(s, steps);
            && i < |s'.db.messages| && s.now <= s'.now
            && var m, m' := s.db.messages[i], s'.db.messages[i];
               m'.status.Queued? && m'.completedAt.None? && m'.claimedAt == m.claimedAt
               && m'.nextAttemptAt == m.nextAttemptAt
    decreases |steps|
  {
    if steps != [] {
      hide Enabled, Apply;
      StepLeavesClaim(s, steps[0], i);
      assert Unclaimed(steps[1..], i) by { UnclaimedOn(steps, i); }
      ClaimIsLeft(Apply(s, steps[0]), steps[1..], i);
    }
  }

  lemma UnclaimedOn(steps: seq<Step>, i: nat)
    requires steps != [] && Unclaimed(steps, i)
    ensures (steps[0].Claim? ==> i !in steps[0].ids) && Unclaimed(steps[1..], i)
  {
  }

  /** If the worker of a claim vanishes, or never records, the message is in no other claim up to and
      including ten minutes later, and from the first microsecond after that every claim takes it that
      has room for it and does not find its row locked. */
  lemma AbandonedIsRetaken(s: System, first: Step, steps: seq<Step>, second: Step, i: nat)
    requires Sane(s) && first.Claim? && Enabled(s, first) && i in first.ids
    requires Runs(Apply(s, first), steps) && Unrecorded(Apply(s, first), steps, i) && Unclaimed(steps, i)
    requires second.Claim? && Enabled(After(Apply(s, first), steps), second)
    requires i !in second.locked && |second.ids| < second.batch
    ensures i in second.ids <==> After(Apply(s, first), steps).now > s.now + 600_000_000
  {
    var s1 := Apply(s, first);
    assert Queue.Claimable(s.db.messages[i], s.now) && RowSane(s.db.messages[i]);
    hide Sane;
    ClaimIsLeft(s1, steps, i);
    var s' := After(s1, steps);
    assert Queue.Claimable(s'.db.messages[i], s'.now) <==> s'.now > s.now + 600_000_000;
  }

  // ------------------------------------------------------------- bounces

  lemma {:induction false} BouncesStay(s: System, steps: seq<Step>)
    requires Runs(s, steps)
    ensures s.db.bounces <= After(s, steps).db.bounces
    decreases |steps|
  {
    if steps != [] {
      BouncesStay(Apply(s, steps[0]), steps[1..]);
    }
  }

  /** Once a bounce carries a queue id, no later report makes a delivered message of one with that id: a
      hard failure is never relabelled as a success. */
  lemma BouncedIsNeverDelivered(s: System, b: nat, steps: seq<Step>, k: nat, i: nat)
    requires b < |s.db.bounces| && s.db.bounces[b].relayQueueId.Some?
    requires Runs(s, steps) && Enabled(After(s, steps), Report(k)) && i < |After(s, steps).db.messages|
    requires After(s, steps).db.messages[i].relayQueueId == s.db.bounces[b].relayQueueId
    requires After(s, steps).db.messages[i].relayState != Some(Delivered)
    ensures var s'' := Apply(After(s, steps), Report(k));
            i < |s''.db.messages| && s''.db.messages[i].relayState != Some(Delivered)
  {
    BouncesStay(s, steps);
    var s' := After(s, steps);
    hide Runs, After;
    assert s'.db.bounces[b] == s.db.bounces[b];
    Reconcile.BecomesDeliveredByDeparting(s'.db.messages[i], s'.snapshots[k].entries, s'.db.bounces, s'.now, GRACE);
  }

  // ---------------------------------------------------------- suppression

  ghost predicate NeverLifts(steps: seq<Step>, row: nat) {
    forall k | 0 <= k < |steps| :: steps[k].Unblock? ==> steps[k].id != row
  }

  /** An active suppression stays until it is lifted, whatever else happens. */
  lemma {:induction false} BlockStands(s: System, steps: seq<Step>, row: nat)
    requires Runs(s, steps) && NeverLifts(steps, row)
    requires row < |s.db.suppressions| && SuppressionList.Active(s.db.suppressions[row])
    ensures var s' := After(s, steps);
            row < |s'.db.suppressions| && s'.db.suppressions[row] == s.db.suppressions[row]
    decreases |steps|
  {
    if steps != [] {
      assert steps[0].Unblock? ==> steps[0].id != row;
      BlockStands(Apply(s, steps[0]), steps[1..], row);
    }
  }

  /** Once a row blocks an address for a tenant, every later new message of that tenant to the address,
      in any case, is stored as suppressed, until that very row is lifted; and whatever happens then,
      even if it is lifted later, no worker is ever given that message. */
  lemma SuppressedIsNeverSent(s: System, row: nat, before: seq<Step>, draft: Draft, since: seq<Step>, claim: Step)
    requires Sane(s) && Runs(s, before) && NeverLifts(before, row)
    requires row < |s.db.suppressions|
    requires var r := s.db.suppressions[row];
             && r.removedAt.None? && Text.Lower(r.address) == Text.Lower(draft.content.rcptTo)
             && (r.tenant.None? || r.tenant == Some(draft.tenant))
    requires Queue.Lookup(After(s, before).db.messages, draft.tenant, draft.key).None?
    requires Runs(Apply(After(s, before), Submit(draft)), since)
    requires claim.Claim? && Enabled(After(Apply(After(s, before), Submit(draft)), since), claim)
    ensures var s1 := After(s, before);
            var receipt := Queue.Accept(s1.db, s1.now, draft).1;
            && receipt.status == Suppressed
            && receipt.id !in claim.ids
            && var s2 := After(Apply(s1, Submit(draft)), since);
               receipt.id < |s2.db.messages| && s2.db.messages[receipt.id].status == Suppressed
  {
    var s1 := After(s, before);
    BlockStands(s, before, row);
    RunKeepsSane(s, before);
    assert SuppressionList.IsSuppressed(s1.db.suppressions, draft.tenant, draft.content.rcptTo);
    var s2 := Apply(s1, Submit(draft));
    StepKeepsSane(s1, Submit(draft));
    var id := |s1.db.messages|;
    assert s2.db.messages[id].status == Suppressed;
    FinishedIsNeverClaimed(s2, id, since, claim);
    RunGrows(s2, since);
  }

  /** No step of the run lifts an active global row for the address. */
  ghost predicate KeepsBlocked(s: System, steps: seq<Step>, address: string) {
    forall k | 0 <= k < |steps| && steps[k].Unblock? && steps[k].id < |s.db.suppressions| ::
      !SuppressionList.SameKey(s.db.suppressions[steps[k].id], None, address)
  }

  /** Once an address is listed for everyone, as it is when a notification with a suppressing report has
      been taken in, every later new message to it, of any tenant and however the address is
      capitalised, is stored as suppressed and no worker is ever given it. */
  lemma ListedIsNeverSent(
    s: System, address: string, before: seq<Step>, draft: Draft, since: seq<Step>, claim: Step)
    requires Sane(s) && SuppressionList.Listed(s.db.suppressions, None, address)
    requires Runs(s, before) && KeepsBlocked(s, before, address)
    requires Text.Lower(draft.content.rcptTo) == Text.Lower(address)
    requires Queue.Lookup(After(s, before).db.messages, draft.tenant, draft.key).None?
    requires Runs(Apply(After(s, before), Submit(draft)), since)
    requires claim.Claim? && Enabled(After(Apply(After(s, before), Submit(draft)), since), claim)
    ensures var s1 := After(s, before);
            var receipt := Queue.Accept(s1.db, s1.now, draft).1;
            receipt.status == Suppressed && receipt.id !in claim.ids
  {
    var row :| 0 <= row < |s.db.suppressions| && SuppressionList.SameKey(s.db.suppressions[row], None, address);
    hide Sane, Runs, Enabled, After, Apply, Queue.Accept, Queue.Lookup;
    assert SuppressionList.Blocks(s.db.suppressions[row], draft.tenant, draft.content.rcptTo);
    assert NeverLifts(before, row);
    SuppressedIsNeverSent(s, row, before, draft, since, claim);
  }

  /** Lifting the one active row that blocks an address for a tenant lets its next new message through. */
  lemma LiftedLetsThrough(s: System, id: nat, actor: string, draft: Draft)
    requires id < |s.db.suppressions| && s.db.suppressions[id].removedAt.None?
    requires forall i | 0 <= i < |s.db.suppressions| && i != id && s.db.suppressions[i].removedAt.None? ::
               Text.Lower(s.db.suppressions[i].address) != Text.Lower(draft.content.rcptTo)
    requires Queue.Lookup(s.db.messages, draft.tenant, draft.key).None?
    ensures var s1 := Apply(s, Unblock(id, actor));
            var receipt := Queue.Accept(s1.db, s1.now, draft).1;
            && s1.db.suppressions[id] == s.db.suppressions[id].(removedAt := Some(s.now), removedBy := Some(actor))
            && receipt.status == Queued && !receipt.deduplicated
  {
    var s1 := Apply(s, Unblock(id, actor));
    Queue.NewMessageIs(s1.db, s1.now, draft);
  }

  // ---------------------------------------------------------------- jobs

  /** A worker that has recorded or vanished does nothing more for that claim. */
  lemma {:induction false} OverIsOver(s: System, steps: seq<Step>, j: nat)
    requires Runs(s, steps) && j < |s.jobs| && s.jobs[j].phase == Over
    ensures var s' := After(s, steps);
            && j < |s'.jobs| && s'.jobs[j] == s.jobs[j]
            && !Enabled(s', Record(j)) && !Enabled(s', Vanish(j)) && forall answer :: !Enabled(s', HandOver(j, answer))
    decreases |steps|
  {
    if steps != [] {
      JobStaysOver(s, steps[0], j);
      hide Enabled, Apply;
      OverIsOver(Apply(s, steps[0]), steps[1..], j);
    }
  }

  lemma JobStaysOver(s: System, step: Step, j: nat)
    requires Enabled(s, step) && j < |s.jobs| && s.jobs[j].phase == Over
    ensures var s' := Apply(s, step); j < |s'.jobs| && s'.jobs[j] == s.jobs[j]
  {
  }

  /** A worker can vanish at any point until it has recorded, and then never records; and it records at
      most once. */
  lemma VanishedNeverRecords(s: System, step: Step, j: nat, steps: seq<Step>)
    requires j < |s.jobs| && (step == Vanish(j) || step == Record(j)) && Enabled(s, step)
    requires Runs(Apply(s, step), steps)
    ensures s.jobs[j].phase != Over
    ensures !Enabled(After(Apply(s, step), steps), Record(j))
  {
    OverIsOver(Apply(s, step), steps, j);
  }

  /** Before that a worker may always vanish. */
  lemma MayVanish(s: System, j: nat)
    requires j < |s.jobs|
    ensures Enabled(s, Vanish(j)) <==> s.jobs[j].phase != Over
  {
  }

  // --------------------------------------------------------- the relay

  /** What the relay has taken, from a worker or from elsewhere, it holds until it lets go of it. */
  lemma {:induction false} RelayHolds(s: System, steps: seq<Step>, q: string)
    requires Runs(s, steps) && q in s.held && forall k | 0 <= k < |steps| :: steps[k] != RelayLetsGo(q)
    ensures q in After(s, steps).held
    decreases |steps|
  {
    if steps != [] {
      assert steps[0] != RelayLetsGo(q);
      RelayHolds(Apply(s, steps[0]), steps[1..], q);
    }
  }

  /** It takes in what it did not have, and lets go of exactly what it is told to. */
  lemma RelayTakesAndLetsGo(s: System, q: string)
    ensures q !in s.entered ==>
              Enabled(s, RelayTakes(q)) && Apply(s, RelayTakes(q)).held == s.held + {q}
              && Apply(s, RelayTakes(q)).entered == s.entered[q := s.now]
    ensures q in s.held ==> Enabled(s, RelayLetsGo(q)) && Apply(s, RelayLetsGo(q)).held == s.held - {q}
  {
  }
}
