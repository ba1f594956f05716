/** When a message may be called delivered while the relay still holds it, and when not. */
module RelayTruth {
  import opened Wrappers
  import opened Schema
  import opened Protocol
  import Queue
  import Reconcile
  import Lease

  /** The label is true: no message is marked delivered whose queue id the relay still holds. */
  predicate Truthful(s: System, m: Message) {
    m.relayState == Some(Delivered) && m.relayQueueId.Some? ==> m.relayQueueId.value !in s.held
  }

  predicate LabelsTrue(s: System) {
    forall i | 0 <= i < |s.db.messages| :: Truthful(s, s.db.messages[i])
  }

  // ------------------------------------------- what holds without labels

  /** A row's queue id is one the relay had issued when the row was completed. */
  predicate Dated(s: System, m: Message) {
    m.relayQueueId.Some? ==>
      && m.completedAt.Some?
      && m.relayQueueId.value in s.entered && s.entered[m.relayQueueId.value] <= m.completedAt.value
  }

  predicate RowsDated(s: System) {
    forall i | 0 <= i < |s.db.messages| :: Dated(s, s.db.messages[i])
  }

  /** An answer with a queue id names an id the relay has issued. */
  predicate AnswerKnown(s: System, job: Job) {
    job.phase.Answered? && job.phase.outcome.Accepted? && job.phase.outcome.queueId.Some? ==>
      job.phase.outcome.queueId.value in s.entered
  }

  predicate AnswersKnown(s: System) {
    forall j | 0 <= j < |s.jobs| :: AnswerKnown(s, s.jobs[j])
  }

  predicate RelayKnown(s: System) {
    && (forall q | q in s.held :: q in s.entered)
    && (forall q | q in s.entered :: s.entered[q] <= s.now)
  }

  /** What the relay held before the snapshot and still holds is in it. */
  predicate Covers(s: System, shot: Snapshot) {
    shot.takenAt <= s.now
    && forall q | q in s.held && q in s.entered && s.entered[q] < shot.takenAt :: Lists(shot.entries, q)
  }

  predicate AllCover(s: System) {
    forall k | 0 <= k < |s.snapshots| :: Covers(s, s.snapshots[k])
  }

  /** What the tables and the snapshots say about the relay's ids is so, with no assumption about when
      workers record. */
  predicate Faithful(s: System) {
    RelayKnown(s) && RowsDated(s) && AnswersKnown(s) && AllCover(s)
  }

  lemma RecordKeepsDated(s: System, j: nat)
    requires Faithful(s) && Enabled(s, Record(j))
    ensures RowsDated(Apply(s, Record(j)))
  {
    var s' := Apply(s, Record(j));
    var job := s.jobs[j];
    var line, row := Lease.SettleWrites(s.db, s.now, job.message, job.made, job.phase.outcome);
    assert AnswerKnown(s, job) && Dated(s, s.db.messages[job.message]);
    hide Queue.Settle, AllCover;
    assert Dated(s', row);
    forall i | 0 <= i < |s'.db.messages| ensures Dated(s', s'.db.messages[i]) {
      assert Dated(s, s.db.messages[i]);
    }
  }

  /** Recording, reporting and purging leave the relay, the clock and the snapshots alone. */
  lemma RecordKeepsFaith(s: System, j: nat)
    requires Faithful(s) && Enabled(s, Record(j))
    ensures Faithful(Apply(s, Record(j)))
  {
    var s' := Apply(s, Record(j));
    RecordKeepsDated(s, j);
    hide RowsDated, Queue.Settle;
    assert forall k | 0 <= k < |s.jobs| :: AnswerKnown(s, s.jobs[k]) ==> AnswerKnown(s', s'.jobs[k]);
    SnapshotsStayCovered(s, s');
  }

  lemma ReportKeepsFaith(s: System, k: nat)
    requires Faithful(s) && Enabled(s, Report(k))
    ensures Faithful(Apply(s, Report(k)))
  {
    var s' := Apply(s, Report(k));
    ReportKeeps(s, k);
    hide Reconcile.ReconcileAll;
    assert forall i | 0 <= i < |s.db.messages| :: Dated(s, s.db.messages[i]) ==> Dated(s', s'.db.messages[i]);
    assert forall j | 0 <= j < |s.jobs| :: AnswerKnown(s, s.jobs[j]) ==> AnswerKnown(s', s'.jobs[j]);
    SnapshotsStayCovered(s, s');
  }

  lemma PurgeKeepsFaith(s: System, days: int)
    requires Faithful(s)
    ensures Faithful(Apply(s, Purge(days)))
  {
  }

  lemma SnapshotsStayCovered(s: System, s': System)
    requires s'.snapshots == s.snapshots && s'.held == s.held && s'.entered == s.entered && s.now <= s'.now
    requires AllCover(s)
    ensures AllCover(s')
  {
  }

  /** A submission or a claim adds rows and jobs that say nothing about the relay yet. */
  lemma QueueStepKeepsFaith(s: System, step: Step)
    requires Faithful(s) && Enabled(s, step) && (step.Submit? || step.Claim?)
    ensures Faithful(Apply(s, step))
  {
    var s' := Apply(s, step);
    forall i | 0 <= i < |s'.db.messages| ensures Dated(s', s'.db.messages[i]) {
      assert i < |s.db.messages| ==> Dated(s, s.db.messages[i]);
    }
    forall j | 0 <= j < |s'.jobs| ensures AnswerKnown(s', s'.jobs[j]) {
      assert j < |s.jobs| ==> AnswerKnown(s, s.jobs[j]);
    }
    SnapshotsStayCovered(s, s');
  }

  /** The relay takes in a new id, which is nobody's old one, or lets one go. */
  lemma RelayStepKeepsFaith(s: System, step: Step)
    requires Faithful(s) && Enabled(s, step)
    requires step.HandOver? || step.RelayTakes? || step.RelayLetsGo?
    ensures Faithful(Apply(s, step))
  {
    var s' := Apply(s, step);
    forall i | 0 <= i < |s'.db.messages| ensures Dated(s', s'.db.messages[i]) {
      assert Dated(s, s.db.messages[i]);
    }
    forall j | 0 <= j < |s'.jobs| ensures AnswerKnown(s', s'.jobs[j]) {
      assert AnswerKnown(s, s.jobs[j]);
    }
    forall k | 0 <= k < |s'.snapshots| ensures Covers(s', s'.snapshots[k]) {
      assert Covers(s, s.snapshots[k]);
    }
  }

  lemma OtherStepKeepsFaith(s: System, step: Step)
    requires Faithful(s) && Enabled(s, step) && Complete(s, step)
    requires step.Tick? || step.Vanish? || step.TakeSnapshot? || step.Block? || step.Unblock? || step.StoreBounce?
    ensures Faithful(Apply(s, step))
  {
    var s' := Apply(s, step);
    forall i | 0 <= i < |s'.db.messages| ensures Dated(s', s'.db.messages[i]) {
      assert Dated(s, s.db.messages[i]);
    }
    forall j | 0 <= j < |s'.jobs| ensures AnswerKnown(s', s'.jobs[j]) {
      assert AnswerKnown(s, s.jobs[j]);
    }
    forall k | 0 <= k < |s'.snapshots| ensures Covers(s', s'.snapshots[k]) {
      assert k < |s.snapshots| ==> Covers(s, s.snapshots[k]);
    }
  }

  /** Only the completeness of snapshots is needed for this, not their promptness. */
  lemma StepKeepsFaith(s: System, step: Step)
    requires Faithful(s) && Enabled(s, step) && Complete(s, step)
    ensures Faithful(Apply(s, step))
  {
    hide Faithful, Apply;
    match step
    case Record(j) => RecordKeepsFaith(s, j);
    case Report(k) => ReportKeepsFaith(s, k);
    case Purge(days) => PurgeKeepsFaith(s, days);
    case HandOver(_, _) => RelayStepKeepsFaith(s, step);
    case RelayTakes(_) => RelayStepKeepsFaith(s, step);
    case RelayLetsGo(_) => RelayStepKeepsFaith(s, step);
    case Submit(_) => QueueStepKeepsFaith(s, step);
    case Claim(_, _, _, _) => QueueStepKeepsFaith(s, step);
    case _ => OtherStepKeepsFaith(s, step);
  }

  // ------------------------------------------------- when labels go wrong

  /** A record that puts the id of a message the relay holds onto a row already labelled delivered. */
  ghost predicate Mislabels(s: System, step: Step)
    requires Enabled(s, step)
  {
    && step.Record?
    && var job := s.jobs[step.job];
       && job.phase.outcome.Accepted? && job.phase.outcome.queueId.Some?
       && s.db.messages[job.message].relayState == Some(Delivered)
       && job.phase.outcome.queueId.value in s.held
  }

  /** The label of the row a worker records for is true afterwards if and only if the record does not
      put a held id under a label that is there already. */
  lemma RecordMislabelsIff(s: System, j: nat)
    requires Enabled(s, Record(j)) && Truthful(s, s.db.messages[s.jobs[j].message])
    ensures var s' := Apply(s, Record(j));
            Truthful(s', s'.db.messages[s.jobs[j].message]) <==> !Mislabels(s, Record(j))
  {
  }

  lemma RecordLabels(s: System, j: nat)
    requires Enabled(s, Record(j)) && LabelsTrue(s)
    ensures LabelsTrue(Apply(s, Record(j))) <==> !Mislabels(s, Record(j))
  {
    var s' := Apply(s, Record(j));
    var id := s.jobs[j].message;
    assert Truthful(s, s.db.messages[id]);
    RecordMislabelsIff(s, j);
    hide Mislabels;
    var line, row := Lease.SettleWrites(s.db, s.now, id, s.jobs[j].made, s.jobs[j].phase.outcome);
    hide Queue.Settle;
    forall i | 0 <= i < |s'.db.messages| && i != id ensures Truthful(s', s'.db.messages[i]) {
      assert Truthful(s, s.db.messages[i]);
    }
    assert LabelsTrue(s') ==> Truthful(s', s'.db.messages[id]);
  }

  /** A prompt report concludes `delivered` only for messages the relay has let go of, whoever recorded
      them and when. */
  lemma PromptReportIsTrue(s: System, k: nat, i: nat)
    requires Faithful(s) && LabelsTrue(s) && Enabled(s, Report(k)) && Within(s, Report(k), GRACE)
    requires i < |s.db.messages|
    ensures var s' := Apply(s, Report(k)); i < |s'.db.messages| && Truthful(s', s'.db.messages[i])
  {
  }

  lemma StepLabels(s: System, step: Step)
    requires Faithful(s) && LabelsTrue(s) && Enabled(s, step) && Within(s, step, GRACE)
    ensures LabelsTrue(Apply(s, step)) <==> !Mislabels(s, step)
  {
    match step
    case Record(j) => RecordLabels(s, j);
    case Report(k) =>
      var s' := Apply(s, step);
      ReportKeeps(s, k);
      hide Faithful;
      forall i | 0 <= i < |s'.db.messages| ensures Truthful(s', s'.db.messages[i]) {
        PromptReportIsTrue(s, k, i);
      }
    case Purge(days) => PurgeLabels(s, days);
    case _ => OtherLabels(s, step);
  }

  lemma PurgeLabels(s: System, days: int)
    requires LabelsTrue(s)
    ensures LabelsTrue(Apply(s, Purge(days)))
  {
  }

  lemma OtherLabels(s: System, step: Step)
    requires Faithful(s) && LabelsTrue(s) && Enabled(s, step)
    requires !step.Record? && !step.Report? && !step.Purge?
    ensures LabelsTrue(Apply(s, step))
  {
    var s' := Apply(s, step);
    hide AllCover, AnswersKnown;
    forall i | 0 <= i < |s'.db.messages| ensures Truthful(s', s'.db.messages[i]) {
      assert i < |s.db.messages| ==> Truthful(s, s.db.messages[i]) && Dated(s, s.db.messages[i]);
    }
  }

  /** Every label is true in every state the run goes through. */
  ghost predicate AlwaysTrue(s: System, steps: seq<Step>)
    requires Runs(s, steps)
    decreases |steps|
  {
    LabelsTrue(s) && (steps != [] ==> AlwaysTrue(Apply(s, steps[0]), steps[1..]))
  }

  ghost predicate NeverMislabels(s: System, steps: seq<Step>)
    requires Runs(s, steps)
    decreases |steps|
  {
    steps != [] ==> !Mislabels(s, steps[0]) && NeverMislabels(Apply(s, steps[0]), steps[1..])
  }

  lemma {:induction false} LabelsFollow(s: System, steps: seq<Step>)
    requires Faithful(s) && LabelsTrue(s) && Runs(s, steps) && AllPrompt(s, steps, GRACE)
    ensures AlwaysTrue(s, steps) <==> NeverMislabels(s, steps)
    decreases |steps|
  {
    if steps != [] {
      hide Faithful, LabelsTrue, Apply, Enabled, Mislabels;
      var s' := Apply(s, steps[0]);
      StepKeepsFaith(s, steps[0]);
      StepLabels(s, steps[0]);
      if !Mislabels(s, steps[0]) {
        LabelsFollow(s', steps[1..]);
      } else {
        NotAlways(s', steps[1..]);
      }
    }
  }

  lemma NotAlways(s: System, steps: seq<Step>)
    requires Runs(s, steps) && !LabelsTrue(s)
    ensures !AlwaysTrue(s, steps)
  {
  }

  /** With complete snapshots that arrive within the grace, and no assumption about workers: the labels
      are true throughout a run if and only if no record in it puts the id of a message the relay holds
      onto a row labelled delivered. */
  lemma LabelsTrueIff(start: Time, steps: seq<Step>)
    requires Runs(Start(start), steps) && AllPrompt(Start(start), steps, GRACE)
    ensures AlwaysTrue(Start(start), steps) <==> NeverMislabels(Start(start), steps)
  {
    LabelsFollow(Start(start), steps);
  }

  /** No record of the run gives a queue id to a row labelled delivered: what a worker could ask of the
      row before it records. */
  ghost predicate NeverRelabels(s: System, steps: seq<Step>)
    requires Runs(s, steps)
    decreases |steps|
  {
    steps != [] ==>
      && (steps[0].Record? ==>
            var job := s.jobs[steps[0].job];
            job.phase.outcome.Accepted? && job.phase.outcome.queueId.Some? ==>
              s.db.messages[job.message].relayState != Some(Delivered))
      && NeverRelabels(Apply(s, steps[0]), steps[1..])
  }

  lemma {:induction false} AlwaysToTheEnd(s: System, steps: seq<Step>)
    requires Runs(s, steps) && AlwaysTrue(s, steps)
    ensures LabelsTrue(After(s, steps))
    decreases |steps|
  {
    if steps != [] {
      hide Apply, Enabled, LabelsTrue;
      AlwaysToTheEnd(Apply(s, steps[0]), steps[1..]);
    }
  }

  lemma {:induction false} RelabelsFirst(s: System, steps: seq<Step>)
    requires Runs(s, steps) && NeverRelabels(s, steps)
    ensures NeverMislabels(s, steps)
    decreases |steps|
  {
    if steps != [] {
      RelabelsFirst(Apply(s, steps[0]), steps[1..]);
    }
  }

  /** So late workers do no harm to the labels, as long as none of them records a hand-over for a row
      that is labelled already. */
  lemma UnlessRelabelled(start: Time, steps: seq<Step>)
    requires Runs(Start(start), steps) && AllPrompt(Start(start), steps, GRACE)
    requires NeverRelabels(Start(start), steps)
    ensures LabelsTrue(After(Start(start), steps))
  {
    RelabelsFirst(Start(start), steps);
    LabelsTrueIff(start, steps);
    AlwaysToTheEnd(Start(start), steps);
  }

  // ----------------------------------------------------- under the lease

  /** Only a sent message has a queue id, and only a message with an id has a relay state. */
  predicate Settled(m: Message) {
    (m.relayQueueId.Some? ==> m.status.Sent?) && (m.relayState.Some? ==> m.relayQueueId.Some?)
  }

  predicate RowsSettled(s: System) {
    forall i | 0 <= i < |s.db.messages| :: Settled(s.db.messages[i])
  }

  lemma RecordKeepsSettled(s: System, j: nat)
    requires Lease.Disciplined(s) && RowsSettled(s) && Enabled(s, Record(j)) && Leased(s, Record(j))
    ensures RowsSettled(Apply(s, Record(j)))
    ensures s.db.messages[s.jobs[j].message].relayState.None?
  {
    var s' := Apply(s, Record(j));
    var job := s.jobs[j];
    assert Lease.Holds(s, job) && Settled(s.db.messages[job.message]);
    var line, row := Lease.SettleWrites(s.db, s.now, job.message, job.made, job.phase.outcome);
    hide Lease.Disciplined, Queue.Settle;
    forall i | 0 <= i < |s'.db.messages| ensures Settled(s'.db.messages[i]) {
      assert Settled(s.db.messages[i]);
    }
  }

  lemma ReportKeepsSettled(s: System, k: nat)
    requires RowsSettled(s) && Enabled(s, Report(k))
    ensures RowsSettled(Apply(s, Report(k)))
  {
  }

  lemma StepKeepsSettled(s: System, step: Step)
    requires Lease.Disciplined(s) && RowsSettled(s) && Enabled(s, step) && Leased(s, step)
    ensures RowsSettled(Apply(s, step))
  {
    match step
    case Record(j) => RecordKeepsSettled(s, j);
    case Report(k) => ReportKeepsSettled(s, k);
    case _ => OtherStepKeepsSettled(s, step);
  }

  lemma OtherStepKeepsSettled(s: System, step: Step)
    requires RowsSettled(s) && Enabled(s, step) && !step.Record? && !step.Report?
    ensures RowsSettled(Apply(s, step))
  {
    var s' := Apply(s, step);
    if step.Purge? {
      PurgeKeeps(s, step.days);
    }
    forall i | 0 <= i < |s'.db.messages| ensures Settled(s'.db.messages[i]) {
      assert i < |s.db.messages| ==> Settled(s.db.messages[i]);
    }
  }

  /** A worker that keeps its lease records for a queued row, which has no label yet. */
  lemma {:induction false} LeasedNeverRelabels(s: System, steps: seq<Step>)
    requires Lease.Disciplined(s) && RowsSettled(s) && Runs(s, steps) && AllLeased(s, steps)
    ensures NeverRelabels(s, steps) && RowsSettled(After(s, steps))
    decreases |steps|
  {
    if steps != [] {
      hide Lease.Disciplined, Apply, Enabled, RowsSettled;
      if steps[0].Record? {
        RecordKeepsSettled(s, steps[0].job);
      }
      StepKeepsSettled(s, steps[0]);
      Lease.StepKeepsDiscipline(s, steps[0]);
      LeasedNeverRelabels(Apply(s, steps[0]), steps[1..]);
    }
  }

  lemma LeasedLabels(start: Time, steps: seq<Step>)
    requires Runs(Start(start), steps) && AllLeased(Start(start), steps) && AllPrompt(Start(start), steps, GRACE)
    ensures LabelsTrue(After(Start(start), steps)) && RowsSettled(After(Start(start), steps))
  {
    assert Lease.Disciplined(Start(start)) && RowsSettled(Start(start));
    hide Runs, After, Lease.Disciplined, Start;
    LeasedNeverRelabels(Start(start), steps);
    UnlessRelabelled(start, steps);
  }

  /** In any interleaving of hand-overs, records, snapshots and reports, with workers that record
      within their lease and complete snapshots that arrive within the grace: a message marked
      delivered was sent and is not in the relay's queue. */
  lemma NoFalseDelivered(start: Time, steps: seq<Step>, i: nat)
    requires Runs(Start(start), steps) && AllLeased(Start(start), steps) && AllPrompt(Start(start), steps, GRACE)
    requires i < |After(Start(start), steps).db.messages|
    ensures var s := After(Start(start), steps);
            s.db.messages[i].relayState == Some(Delivered) ==>
              && s.db.messages[i].status.Sent?
              && s.db.messages[i].relayQueueId.Some?
              && s.db.messages[i].relayQueueId.value !in s.held
  {
    LeasedLabels(start, steps);
    hide Runs, After;
    var s := After(Start(start), steps);
    assert Truthful(s, s.db.messages[i]) && Settled(s.db.messages[i]);
  }
}
