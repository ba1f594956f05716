/** What every run keeps when each worker records within the claim timeout or never: the delivery log
    is exactly the history of each message. And what a late worker does to it. */
module Lease {
  import opened Wrappers
  import opened Schema
  import opened Protocol
  import opened Safety
  import Queue
  import Retry
  import Text

  // ------------------------------------------------------------ the log

  /** The delivery log of one message, oldest first. */
  function LogOf(log: seq<Attempt>, id: nat): seq<Attempt> {
    if log == [] then []
    else
      var last := |log| - 1;
      if log[last].message == id then LogOf(log[..last], id) + [log[last]] else LogOf(log[..last], id)
  }

  lemma LogOfAppend(log: seq<Attempt>, a: Attempt, id: nat)
    ensures LogOf(log + [a], id) == if a.message == id then LogOf(log, id) + [a] else LogOf(log, id)
  {
  }

  /** Every line of a message's log stands somewhere in the whole log. */
  lemma {:induction false} LogOfIndex(log: seq<Attempt>, id: nat, k: nat) returns (n: nat)
    requires k < |LogOf(log, id)|
    ensures n < |log| && log[n] == LogOf(log, id)[k] && log[n].message == id
  {
    var last := |log| - 1;
    if log[last].message == id && k == |LogOf(log, id)| - 1 {
      n := last;
    } else {
      n := LogOfIndex(log[..last], id, k);
    }
  }

  /** Does a message's log tell its history? Its lines are numbered from 1 to the attempts made, all
      but the last are transient, and the last says what the status says. */
  predicate Tells(history: seq<Attempt>, m: Message) {
    && |history| == m.attempts
    && (forall k | 0 <= k < |history| :: history[k].attempt == k + 1)
    && (forall k | 0 <= k < |history| - 1 :: history[k].verdict == Transient)
    && match m.status
       case Queued => history != [] ==> history[|history| - 1].verdict == Transient
       case Sent => history != [] && history[|history| - 1].verdict == Taken
       case Failed => history != [] && history[|history| - 1].verdict == Permanent
       case Suppressed => history == []
  }

  /** Each line comes no sooner after the one before it than the schedule says, and a queued message
      is due exactly when the schedule says. */
  predicate Spaced(history: seq<Attempt>, m: Message) {
    && |history| <= Retry.LAST_ATTEMPT
    && (forall k | 1 <= k < |history| :: history[k].at >= history[k - 1].at + Retry.SCHEDULE[k] * SECOND)
    && (m.status.Queued? && 0 < |history| < Retry.LAST_ATTEMPT ==>
          m.nextAttemptAt == history[|history| - 1].at + Retry.SCHEDULE[|history|] * SECOND)
  }

  predicate KeptRow(log: seq<Attempt>, m: Message, i: nat) {
    Tells(LogOf(log, i), m) && Spaced(LogOf(log, i), m)
  }

  predicate Kept(db: Tables) {
    forall i | 0 <= i < |db.messages| :: KeptRow(db.log, db.messages[i], i)
  }

  predicate NoStrangers(db: Tables) {
    forall n | 0 <= n < |db.log| :: db.log[n].message < |db.messages|
  }

  lemma {:induction false} StrangerHasNoLog(log: seq<Attempt>, id: nat)
    requires forall n | 0 <= n < |log| :: log[n].message < id
    ensures LogOf(log, id) == []
  {
    if log != [] {
      StrangerHasNoLog(log[..|log| - 1], id);
    }
  }

  /** A line keeps what the relay answered: its verdict, its code and its own words, with at most a
      remark before them when the tries have run out. */
  predicate Says(line: Attempt, answer: Outcome) {
    && line.verdict == Queue.VerdictOf(answer, line.attempt)
    && match answer
       case Accepted(queueId) => line.code == Some(250) && line.relayQueueId == queueId && line.detail.None?
       case Refusal(code, detail) => line.code == code && line.relayQueueId.None? && line.detail == Some(detail)
       case Deferral(code, detail) =>
         && line.code == code && line.relayQueueId.None?
         && line.detail == Some(
              if line.verdict.Transient? then detail
              else "giving up after " + Text.Decimal(line.attempt) + " attempts: " + detail)
  }

  /** The log, line by line, says what the relay answered. */
  predicate Answers(log: seq<Attempt>, answers: seq<Outcome>) {
    && |answers| == |log|
    && forall n | 0 <= n < |log| :: Says(log[n], answers[n])
  }

  // -------------------------------------------------------------- leases

  /** While its claim has not timed out, a worker's message is exactly as the claim left it. */
  predicate Holds(s: System, job: Job) {
    && job.claimedAt <= s.now
    && (Live(s, job) ==>
          && job.message < |s.db.messages|
          && var m := s.db.messages[job.message];
             && m.status.Queued? && m.claimedAt == Some(job.claimedAt) && m.attempts == job.made
             && m.nextAttemptAt <= job.claimedAt)
  }

  predicate Exclusive(s: System) {
    forall j, k | 0 <= j < k < |s.jobs| && Live(s, s.jobs[j]) && Live(s, s.jobs[k]) ::
      s.jobs[j].message != s.jobs[k].message
  }

  ghost predicate Disciplined(s: System) {
    && Sane(s)
    && Kept(s.db)
    && NoStrangers(s.db)
    && Answers(s.db.log, s.answers)
    && (forall j | 0 <= j < |s.jobs| :: Holds(s, s.jobs[j]))
    && Exclusive(s)
  }

  /** No claim takes a message away from a worker that may still record. */
  lemma LiveClaimIsNotRetaken(s: System, step: Step, j: nat)
    requires Disciplined(s) && step.Claim? && Enabled(s, step)
    requires j < |s.jobs| && Live(s, s.jobs[j])
    ensures s.jobs[j].message !in step.ids
  {
  }

  lemma ClaimKeepsHolds(s: System, step: Step)
    requires Disciplined(s) && step.Claim? && Enabled(s, step)
    ensures var s' := Apply(s, step); forall j | 0 <= j < |s'.jobs| :: Holds(s', s'.jobs[j])
  {
    var s' := Apply(s, step);
    forall j | 0 <= j < |s'.jobs|
      ensures Holds(s', s'.jobs[j])
    {
      if j < |s.jobs| {
        assert Holds(s, s.jobs[j]);
        if Live(s, s.jobs[j]) {
          LiveClaimIsNotRetaken(s, step, j);
        }
      } else {
        var id := step.ids[j - |s.jobs|];
        assert Queue.Claimable(s.db.messages[id], s.now);
      }
    }
  }

  /** The jobs of one claim are about different messages, and none about a live job's message. */
  lemma ClaimKeepsApart(s: System, step: Step, j: nat, k: nat)
    requires Disciplined(s) && step.Claim? && Enabled(s, step)
    requires j < k < |s.jobs| + |step.ids|
    requires Live(s, (s.jobs + Claims(s, step.ids))[j]) && Live(s, (s.jobs + Claims(s, step.ids))[k])
    ensures (s.jobs + Claims(s, step.ids))[j].message != (s.jobs + Claims(s, step.ids))[k].message
  {
  }

  lemma ClaimKeepsExclusive(s: System, step: Step)
    requires Disciplined(s) && step.Claim? && Enabled(s, step)
    ensures Exclusive(Apply(s, step))
  {
    var s' := Apply(s, step);
    forall j, k | 0 <= j < k < |s'.jobs| && Live(s', s'.jobs[j]) && Live(s', s'.jobs[k])
      ensures s'.jobs[j].message != s'.jobs[k].message
    {
      ClaimKeepsApart(s, step, j, k);
    }
  }

  /** Kept rows stay kept when only the columns that play no part in a history change. */
  lemma KeptFrame(db: Tables, db': Tables)
    requires Kept(db) && db'.log == db.log && |db'.messages| == |db.messages|
    requires forall i | 0 <= i < |db.messages| ::
               && db'.messages[i].status == db.messages[i].status
               && db'.messages[i].attempts == db.messages[i].attempts
               && db'.messages[i].nextAttemptAt == db.messages[i].nextAttemptAt
    ensures Kept(db')
  {
  }

  lemma ClaimKeepsDiscipline(s: System, step: Step)
    requires Disciplined(s) && step.Claim? && Enabled(s, step)
    ensures Disciplined(Apply(s, step))
  {
    StepKeepsSane(s, step);
    ClaimKeepsHolds(s, step);
    ClaimKeepsExclusive(s, step);
    KeptFrame(s.db, Apply(s, step).db);
  }

  /** A row at the end of the table without a line in the log is kept. */
  lemma NewRowIsKept(db: Tables, row: Message)
    requires Kept(db) && NoStrangers(db)
    requires row.attempts == 0 && (row.status.Queued? || row.status.Suppressed?)
    ensures var db' := db.(messages := db.messages + [row]); Kept(db') && NoStrangers(db')
  {
    var db' := db.(messages := db.messages + [row]);
    StrangerHasNoLog(db.log, |db.messages|);
    hide LogOf;
    forall i | 0 <= i < |db'.messages|
      ensures KeptRow(db'.log, db'.messages[i], i)
    {
      assert i < |db.messages| ==> KeptRow(db.log, db.messages[i], i);
    }
  }

  lemma SubmitKeepsHolds(s: System, draft: Draft)
    requires forall j | 0 <= j < |s.jobs| :: Holds(s, s.jobs[j])
    ensures var s' := Apply(s, Submit(draft)); forall j | 0 <= j < |s'.jobs| :: Holds(s', s'.jobs[j])
  {
  }

  lemma SubmitKeepsDiscipline(s: System, draft: Draft)
    requires Disciplined(s)
    ensures Disciplined(Apply(s, Submit(draft)))
  {
    var s' := Apply(s, Submit(draft));
    StepKeepsSane(s, Submit(draft));
    SubmitKeepsHolds(s, draft);
    assert Exclusive(s) ==> Exclusive(s');
    hide Sane, Holds, Exclusive, Answers, Kept, NoStrangers;
    if s'.db != s.db {
      var row := s'.db.messages[|s.db.messages|];
      NewRowIsKept(s.db, row);
      KeptFrameOfTables(s.db.(messages := s.db.messages + [row]), s'.db);
    }
  }

  lemma KeptFrameOfTables(db: Tables, db': Tables)
    requires db'.messages == db.messages && db'.log == db.log && Kept(db) && NoStrangers(db)
    ensures Kept(db') && NoStrangers(db')
  {
  }

  /** What settling writes: one line, and a row that says what the line says. */
  lemma SettleWrites(db: Tables, now: Time, id: nat, made: nat, outcome: Outcome) returns (line: Attempt, row: Message)
    requires id < |db.messages|
    ensures var db' := Queue.Settle(db, now, id, made, outcome);
            db' == db.(messages := db.messages[id := row], log := db.log + [line])
    ensures line.message == id && line.attempt == made + 1 && line.at == now
    ensures Says(line, outcome)
    ensures row.attempts == made + 1
    ensures row.status == match line.verdict case Taken => Sent case Permanent => Failed
                                             case Transient => db.messages[id].status
    ensures line.verdict == Transient ==>
              made + 1 < Retry.LAST_ATTEMPT && row.nextAttemptAt == now + Retry.SCHEDULE[made + 1] * SECOND
    ensures row.completedAt == if line.verdict == Transient then db.messages[id].completedAt else Some(now)
    ensures row.relayQueueId == if outcome.Accepted? then outcome.queueId else db.messages[id].relayQueueId
    ensures row == db.messages[id].(
                     status := row.status, attempts := row.attempts, completedAt := row.completedAt,
                     nextAttemptAt := if line.verdict == Transient then row.nextAttemptAt
                                      else db.messages[id].nextAttemptAt,
                     relayQueueId := row.relayQueueId, lastError := line.detail, claimedAt := None, claimedBy := None)
  {
    var db' := Queue.Settle(db, now, id, made, outcome);
    line, row := db'.log[|db.log|], db'.messages[id];
  }

  /** One line makes the next history of a row out of its last one if and only if the row was still
      queued and the line carries the next number. */
  lemma NextLine(history: seq<Attempt>, m: Message, line: Attempt, row: Message)
    requires Tells(history, m) && !m.status.Suppressed?
    requires row.attempts == line.attempt
    requires row.status == match line.verdict case Taken => Sent case Permanent => Failed case Transient => m.status
    ensures Tells(history + [line], row) <==> m.status.Queued? && line.attempt == m.attempts + 1
  {
    var longer := history + [line];
    if !m.status.Queued? {
      assert longer[|history| - 1].verdict != Transient;
    } else if line.attempt == m.attempts + 1 {
      assert forall k | 0 <= k < |history| :: longer[k].verdict == Transient;
    }
  }

  /** A line that continues its message's history leaves everyone else's alone. */
  lemma LineKeepsKept(db: Tables, id: nat, line: Attempt, row: Message)
    requires Kept(db) && NoStrangers(db) && id < |db.messages| && line.message == id
    requires var history := LogOf(db.log, id) + [line]; Tells(history, row) && Spaced(history, row)
    ensures var db' := db.(messages := db.messages[id := row], log := db.log + [line]); Kept(db') && NoStrangers(db')
  {
  }

  lemma RecordKeepsKept(s: System, j: nat)
    requires Disciplined(s) && Enabled(s, Record(j)) && Leased(s, Record(j))
    ensures Kept(Apply(s, Record(j)).db)
    ensures var s' := Apply(s, Record(j)); Answers(s'.db.log, s'.answers) && NoStrangers(s'.db)
  {
    var job := s.jobs[j];
    var id := job.message;
    assert Holds(s, job) && JobSane(s.db.messages, job) && KeptRow(s.db.log, s.db.messages[id], id);
    var line, row := SettleWrites(s.db, s.now, id, job.made, job.phase.outcome);
    hide Queue.Settle, Sane, LogOf, Tells, Spaced, Exclusive, Kept, NoStrangers, Says;
    NextLineIsSpaced(LogOf(s.db.log, id), s.db.messages[id], line, row);
    LineKeepsKept(s.db, id, line, row);
  }

  /** The next line of a message that is still queued and due keeps its history, and its spacing. */
  lemma NextLineIsSpaced(history: seq<Attempt>, m: Message, line: Attempt, row: Message)
    requires Tells(history, m) && Spaced(history, m) && m.status.Queued?
    requires line.attempt == m.attempts + 1 == row.attempts && line.attempt <= Retry.LAST_ATTEMPT
    requires m.nextAttemptAt <= line.at
    requires row.status == match line.verdict case Taken => Sent case Permanent => Failed case Transient => m.status
    requires line.verdict == Transient ==>
               line.attempt < Retry.LAST_ATTEMPT && row.nextAttemptAt == line.at + Retry.SCHEDULE[line.attempt] * SECOND
    ensures Tells(history + [line], row) && Spaced(history + [line], row)
  {
  }

  lemma RecordKeepsHolds(s: System, j: nat)
    requires Disciplined(s) && Enabled(s, Record(j)) && Leased(s, Record(j))
    ensures var s' := Apply(s, Record(j)); Exclusive(s') && forall k | 0 <= k < |s'.jobs| :: Holds(s', s'.jobs[k])
  {
    var s' := Apply(s, Record(j));
    var line, row := SettleWrites(s.db, s.now, s.jobs[j].message, s.jobs[j].made, s.jobs[j].phase.outcome);
    forall k | 0 <= k < |s'.jobs|
      ensures Holds(s', s'.jobs[k])
      ensures Live(s', s'.jobs[k]) ==> k != j && Live(s, s.jobs[k])
    {
      assert Holds(s, s.jobs[k]);
    }
  }

  lemma RecordKeepsDiscipline(s: System, j: nat)
    requires Disciplined(s) && Enabled(s, Record(j)) && Leased(s, Record(j))
    ensures Disciplined(Apply(s, Record(j)))
  {
    StepKeepsSane(s, Record(j));
    RecordKeepsKept(s, j);
    RecordKeepsHolds(s, j);
  }

  lemma ReportKeepsDiscipline(s: System, k: nat)
    requires Disciplined(s) && Enabled(s, Report(k))
    ensures Disciplined(Apply(s, Report(k)))
  {
    var s' := Apply(s, Report(k));
    StepKeepsSane(s, Report(k));
    ReportKeeps(s, k);
    forall j | 0 <= j < |s'.jobs|
      ensures Holds(s', s'.jobs[j])
    {
      assert Holds(s, s.jobs[j]);
    }
    KeptFrame(s.db, s'.db);
  }

  /** The remaining steps touch neither messages nor log, and no job's message or claim. */
  predicate Beside(s: System, s': System) {
    && s'.db.messages == s.db.messages && s'.db.log == s.db.log && s'.answers == s.answers
    && s.now <= s'.now && |s'.jobs| == |s.jobs|
    && forall j | 0 <= j < |s.jobs| ::
         s'.jobs[j] == s.jobs[j].(phase := s'.jobs[j].phase) && (s.jobs[j].phase.Over? ==> s'.jobs[j].phase.Over?)
  }

  lemma OtherStepIsBeside(s: System, step: Step)
    requires Enabled(s, step)
    requires !step.Claim? && !step.Submit? && !step.Record? && !step.Report? && !step.Purge?
    ensures Beside(s, Apply(s, step))
  {
  }

  lemma BesideKeepsDiscipline(s: System, s': System)
    requires Disciplined(s) && Beside(s, s') && Sane(s')
    ensures Disciplined(s')
  {
  }

  lemma PurgeKeepsDiscipline(s: System, days: int)
    requires Disciplined(s)
    ensures Disciplined(Apply(s, Purge(days)))
  {
    var s' := Apply(s, Purge(days));
    StepKeepsSane(s, Purge(days));
    PurgeKeeps(s, days);
    hide Sane, Apply, Kept;
    forall j | 0 <= j < |s'.jobs|
      ensures Holds(s', s'.jobs[j])
      ensures Live(s', s'.jobs[j]) ==> Live(s, s.jobs[j])
    {
      assert Holds(s, s.jobs[j]);
    }
    KeptFrame(s.db, s'.db);
  }

  /** What a live worker holds has not been purged: the files it loads are all there. */
  lemma HeldIsWhole(s: System, j: nat)
    requires Disciplined(s) && j < |s.jobs| && Live(s, s.jobs[j])
    ensures s.jobs[j].message < |s.db.messages| && s.db.messages[s.jobs[j].message].bodyPurgedAt.None?
  {
    assert Holds(s, s.jobs[j]);
    assert RowSane(s.db.messages[s.jobs[j].message]);
  }

  lemma OtherStepKeepsDiscipline(s: System, step: Step)
    requires Disciplined(s) && Enabled(s, step)
    requires !step.Claim? && !step.Submit? && !step.Record? && !step.Report? && !step.Purge?
    ensures Disciplined(Apply(s, step))
  {
    StepKeepsSane(s, step);
    OtherStepIsBeside(s, step);
    hide Apply;
    BesideKeepsDiscipline(s, Apply(s, step));
  }

  lemma StepKeepsDiscipline(s: System, step: Step)
    requires Disciplined(s) && Enabled(s, step) && Leased(s, step)
    ensures Disciplined(Apply(s, step))
  {
    hide Disciplined, Apply;
    match step
    case Claim(_, _, _, _) => ClaimKeepsDiscipline(s, step);
    case Submit(draft) => SubmitKeepsDiscipline(s, draft);
    case Record(j) => RecordKeepsDiscipline(s, j);
    case Report(k) => ReportKeepsDiscipline(s, k);
    case Purge(days) => PurgeKeepsDiscipline(s, days);
    case _ => OtherStepKeepsDiscipline(s, step);
  }

  lemma {:induction false} RunKeepsDiscipline(s: System, steps: seq<Step>)
    requires Disciplined(s) && Runs(s, steps) && AllLeased(s, steps)
    ensures Disciplined(After(s, steps))
    decreases |steps|
  {
    if steps != [] {
      StepKeepsDiscipline(s, steps[0]);
      RunKeepsDiscipline(Apply(s, steps[0]), steps[1..]);
    }
  }

  lemma StepKeepsAnswers(s: System, step: Step)
    requires Answers(s.db.log, s.answers) && Enabled(s, step)
    ensures Answers(Apply(s, step).db.log, Apply(s, step).answers)
  {
    if step.Record? {
      var job := s.jobs[step.job];
      var line, row := SettleWrites(s.db, s.now, job.message, job.made, job.phase.outcome);
    }
  }

  /** In every run, late workers or not, each recorded outcome has one line in the log, in the order of
      recording, and the line keeps what the relay answered. */
  lemma LogKeepsAnswers(start: Time, steps: seq<Step>)
    requires Runs(Start(start), steps)
    ensures var s := After(Start(start), steps);
            && |s.answers| == |s.db.log|
            && forall n | 0 <= n < |s.db.log| ::
                 var line := s.db.log[n];
                 match s.answers[n]
                 case Accepted(queueId) =>
                   line.verdict == Taken && line.code == Some(250) && line.relayQueueId == queueId
                   && line.detail == None
                 case Refusal(code, detail) =>
                   line.verdict == Permanent && line.code == code && line.relayQueueId == None
                   && line.detail == Some(detail)
                 case Deferral(code, detail) =>
                   && line.code == code && line.relayQueueId == None
                   && if line.attempt < 9 then line.verdict == Transient && line.detail == Some(detail)
                      else && line.verdict == Permanent
                           && line.detail ==
                                Some("giving up after " + Text.Decimal(line.attempt) + " attempts: " + detail)
  {
    RunKeepsAnswers(Start(start), steps);
  }

  lemma {:induction false} RunKeepsAnswers(s: System, steps: seq<Step>)
    requires Answers(s.db.log, s.answers) && Runs(s, steps)
    ensures Answers(After(s, steps).db.log, After(s, steps).answers)
    decreases |steps|
  {
    if steps != [] {
      hide Answers, Enabled, Apply;
      StepKeepsAnswers(s, steps[0]);
      RunKeepsAnswers(Apply(s, steps[0]), steps[1..]);
    }
  }

  /** A deferred message can be claimed again from exactly the time the schedule gives on. */
  lemma DeferredIsDueAgain(db: Tables, now: Time, id: nat, made: nat, outcome: Outcome, at: Time)
    requires id < |db.messages| && db.messages[id].status.Queued?
    requires outcome.Deferral? && made + 1 < Retry.LAST_ATTEMPT
    ensures Queue.Claimable(Queue.Settle(db, now, id, made, outcome).messages[id], at)
       <==> at >= now + Retry.Backoff(made + 1).value * 1_000_000
  {
  }

  /** In every run from an empty database, with any number of workers, crashes and reclaims: a
      message's log lines are numbered exactly from 1 to its attempts; all but the last are transient;
      the last is `Taken` if and only if the message is sent, `Permanent` if and only if it failed. */
  lemma LogIsTheHistory(start: Time, steps: seq<Step>, i: nat)
    requires Runs(Start(start), steps) && AllLeased(Start(start), steps)
    requires i < |After(Start(start), steps).db.messages|
    ensures var s := After(Start(start), steps);
            var m, history := s.db.messages[i], LogOf(s.db.log, i);
            && |history| == m.attempts
            && (forall k | 0 <= k < |history| :: history[k].attempt == k + 1)
            && (forall k | 0 <= k < |history| - 1 :: history[k].verdict == Transient)
            && (m.status.Sent? <==> history != [] && history[|history| - 1].verdict == Taken)
            && (m.status.Failed? <==> history != [] && history[|history| - 1].verdict == Permanent)
            && (m.status.Suppressed? ==> history == [])
  {
    RunKeepsDiscipline(Start(start), steps);
    var s := After(Start(start), steps);
    assert KeptRow(s.db.log, s.db.messages[i], i);
  }

  /** In every run in which workers keep their leases, no claim takes a message away from a worker that has
      not recorded yet and claimed it ten minutes ago or less, nor do two such workers hold one message. */
  lemma LeasesHold(start: Time, steps: seq<Step>, claim: Step, j: nat, k: nat)
    requires Runs(Start(start), steps) && AllLeased(Start(start), steps)
    requires var s := After(Start(start), steps);
             && claim.Claim? && Enabled(s, claim) && j < |s.jobs| && k < |s.jobs|
             && !s.jobs[j].phase.Over? && s.now <= s.jobs[j].claimedAt + 600_000_000
             && !s.jobs[k].phase.Over? && s.now <= s.jobs[k].claimedAt + 600_000_000
    ensures var s := After(Start(start), steps);
            && s.jobs[j].message !in claim.ids
            && (j != k ==> s.jobs[j].message != s.jobs[k].message)
            && s.jobs[j].message < |s.db.messages|
            && s.db.messages[s.jobs[j].message].status == Queued
            && s.db.messages[s.jobs[j].message].attempts == s.jobs[j].made
  {
    RunKeepsDiscipline(Start(start), steps);
    var s := After(Start(start), steps);
    hide Runs, After, Enabled;
    assert Live(s, s.jobs[j]) && Live(s, s.jobs[k]) && Holds(s, s.jobs[j]);
    LiveClaimIsNotRetaken(s, claim, j);
  }

  // -------------------------------------------------------- retry window

  /** Every outcome recorded for the message was a temporary refusal. */
  predicate OnlyDeferred(log: seq<Attempt>, answers: seq<Outcome>, id: nat)
    requires |answers| == |log|
  {
    forall n | 0 <= n < |log| && log[n].message == id :: answers[n].Deferral?
  }

  lemma {:induction false} WaitedOut(history: seq<Attempt>, m: Message, last: nat)
    requires Spaced(history, m) && last < |history|
    ensures history[last].at >= history[0].at + Retry.Span(1, last + 1) * SECOND
  {
    if last > 0 {
      WaitedOut(history, m, last - 1);
      Retry.SpanExtends(1, last);
    }
  }

  /** A message that is only ever deferred fails exactly at its ninth attempt, and no sooner than
      253,200 seconds after its first recorded attempt: more than two days. */
  lemma RetryWindow(start: Time, steps: seq<Step>, i: nat)
    requires Runs(Start(start), steps) && AllLeased(Start(start), steps)
    requires var s := After(Start(start), steps);
             i < |s.db.messages| && |s.answers| == |s.db.log| && OnlyDeferred(s.db.log, s.answers, i)
    ensures var s := After(Start(start), steps);
            var m, history := s.db.messages[i], LogOf(s.db.log, i);
            && (m.status.Failed? <==> m.attempts == 9)
            && !m.status.Sent?
            && (m.status.Failed? ==> |history| == 9
                                     && history[8].at >= history[0].at + 253_200_000_000)
  {
    RunKeepsDiscipline(Start(start), steps);
    var s := After(Start(start), steps);
    var m, history := s.db.messages[i], LogOf(s.db.log, i);
    assert KeptRow(s.db.log, m, i) && RowSane(m);
    if history != [] {
      var n := LogOfIndex(s.db.log, i, |history| - 1);
      assert s.answers[n].Deferral?;
      if m.status.Failed? {
        WaitedOut(history, m, 8);
        Retry.FullSpan();
      }
    }
  }

  // ------------------------------------------------- without the lease

  /** What one recorded outcome does to a history that was right: it stays right if and only if the row
      is still queued with the attempts the worker claimed it with. The statements that record do not
      ask for that; the lease assumption is what supplies it. */
  lemma FenceIsExact(s: System, j: nat)
    requires Sane(s) && Enabled(s, Record(j))
    requires Tells(LogOf(s.db.log, s.jobs[j].message), s.db.messages[s.jobs[j].message])
    ensures var job := s.jobs[j];
            var m, s' := s.db.messages[job.message], Apply(s, Record(j));
            Tells(LogOf(s'.db.log, job.message), s'.db.messages[job.message])
            <==> m.status.Queued? && m.attempts == job.made
  {
    var job := s.jobs[j];
    assert JobSane(s.db.messages, job);
    var line, row := SettleWrites(s.db, s.now, job.message, job.made, job.phase.outcome);
    LogOfAppend(s.db.log, line, job.message);
    NextLine(LogOf(s.db.log, job.message), s.db.messages[job.message], line, row);
  }
}
