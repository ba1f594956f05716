/** postbud as a state machine. Any number of workers, callers, operators, bounces and queue reports
    take atomic steps on one database and one clock; a worker may vanish between any two of its steps. */
module Protocol {
  import opened Wrappers
  import opened Schema
  import Queue
  import Reconcile
  import SuppressionList

  /** The seconds a queue report may take from the relay to the database. */
  const GRACE: Time := 15 * SECOND

  datatype Phase =
    | Holding                       // claimed, nothing sent yet
    | Answered(outcome: Outcome)    // the relay has answered, nothing recorded yet
    | Over                          // recorded, or the worker is gone

  /** One message in one worker's hands, with what the claim returned about it. */
  datatype Job = Job(message: nat, made: nat, claimedAt: Time, phase: Phase)

  datatype Snapshot = Snapshot(takenAt: Time, entries: seq<QueueEntry>)

  /** `held` is the relay's own queue and `entered` when each id it ever issued came into it;
      `answers` keeps, beside every row of the delivery log, the outcome the worker had seen. */
  datatype System = System(
    now: Time, db: Tables, jobs: seq<Job>, answers: seq<Outcome>,
    held: set<string>, entered: map<string, Time>, snapshots: seq<Snapshot>)

  datatype Step =
    | Tick(elapsed: nat)
    | Submit(draft: Draft)
    | Claim(worker: string, batch: nat, locked: set<nat>, ids: seq<nat>)
    | HandOver(job: nat, answer: Outcome)
    | Record(job: nat)
    | Vanish(job: nat)
    | RelayTakes(queueId: string)
    | RelayLetsGo(queueId: string)
    | TakeSnapshot(entries: seq<QueueEntry>)
    | Report(snapshot: nat)
    | Block(tenant: Option<nat>, address: string, reason: string, source: string, detail: Option<string>)
    | Unblock(id: nat, actor: string)
    | StoreBounce(row: Bounce)
    | Purge(days: int)

  ghost predicate Enabled(s: System, step: Step) {
    match step
    case Claim(_, batch, locked, ids) => Queue.IsPick(s.db.messages, s.now, locked, batch, ids)
    case HandOver(j, answer) =>
      && j < |s.jobs| && s.jobs[j].phase.Holding?
      && (answer.Accepted? && answer.queueId.Some? ==> answer.queueId.value !in s.entered)
    case Record(j) => j < |s.jobs| && s.jobs[j].phase.Answered? && s.jobs[j].message < |s.db.messages|
    case Vanish(j) => j < |s.jobs| && !s.jobs[j].phase.Over?
    case RelayTakes(q) => q !in s.entered
    case RelayLetsGo(q) => q in s.held
    case Report(k) => k < |s.snapshots|
    case _ => true
  }

  function Claims(s: System, ids: seq<nat>): (r: seq<Job>)
    requires forall k | 0 <= k < |ids| :: ids[k] < |s.db.messages|
    ensures |r| == |ids|
    ensures forall k | 0 <= k < |ids| :: r[k] == Job(ids[k], s.db.messages[ids[k]].attempts, s.now, Holding)
  {
    seq(|ids|, k requires 0 <= k < |ids| => Job(ids[k], s.db.messages[ids[k]].attempts, s.now, Holding))
  }

  ghost function Apply(s: System, step: Step): System
    requires Enabled(s, step)
  {
    match step
    case Tick(elapsed) => s.(now := s.now + elapsed)
    case Submit(draft) => s.(db := Queue.Accept(s.db, s.now, draft).0)
    case Claim(worker, batch, locked, ids) =>
      s.(db := s.db.(messages := Queue.Marked(s.db.messages, ids, worker, s.now)), jobs := s.jobs + Claims(s, ids))
    case HandOver(j, answer) =>
      var s' := s.(jobs := s.jobs[j := s.jobs[j].(phase := Answered(answer))]);
      if answer.Accepted? && answer.queueId.Some?
      then s'.(held := s.held + {answer.queueId.value}, entered := s.entered[answer.queueId.value := s.now])
      else s'
    case Record(j) =>
      var job := s.jobs[j];
      s.(db := Queue.Settle(s.db, s.now, job.message, job.made, job.phase.outcome),
         answers := s.answers + [job.phase.outcome],
         jobs := s.jobs[j := job.(phase := Over)])
    case Vanish(j) => s.(jobs := s.jobs[j := s.jobs[j].(phase := Over)])
    case RelayTakes(q) => s.(held := s.held + {q}, entered := s.entered[q := s.now])
    case RelayLetsGo(q) => s.(held := s.held - {q})
    case TakeSnapshot(entries) => s.(snapshots := s.snapshots + [Snapshot(s.now, entries)])
    case Report(k) =>
      s.(db := s.db.(messages :=
        Reconcile.ReconcileAll(s.db.messages, s.snapshots[k].entries, s.db.bounces, s.now, GRACE)))
    case Block(tenant, address, reason, source, detail) =>
      s.(db := s.db.(suppressions :=
        SuppressionList.Add(s.db.suppressions, s.now, tenant, address, reason, source, detail)))
    case Unblock(id, actor) =>
      s.(db := s.db.(suppressions := SuppressionList.Lift(s.db.suppressions, s.now, id, actor).0))
    case StoreBounce(row) => s.(db := s.db.(bounces := s.db.bounces + [row]))
    case Purge(days) => s.(db := Queue.Purge(s.db, s.now, days))
  }

  // ------------------------------------------------------------------ runs

  /** Can the steps be taken one after the other? */
  ghost predicate Runs(s: System, steps: seq<Step>)
    decreases |steps|
  {
    steps != [] ==> Enabled(s, steps[0]) && Runs(Apply(s, steps[0]), steps[1..])
  }

  ghost function After(s: System, steps: seq<Step>): System
    requires Runs(s, steps)
    decreases |steps|
  {
    if steps == [] then s else After(Apply(s, steps[0]), steps[1..])
  }

  const EmptyTables := Tables([], [], [], [], [])

  function Start(now: Time): System {
    System(now, EmptyTables, [], [], {}, map[], [])
  }

  // ----------------------------------------------------------- assumptions

  /** The claim of a job has not timed out yet. */
  predicate Live(s: System, job: Job) {
    !job.phase.Over? && s.now <= job.claimedAt + Queue.CLAIM_TIMEOUT
  }

  /** The lease assumption: a worker records within the claim timeout or never. */
  ghost predicate Leased(s: System, step: Step) {
    step.Record? && step.job < |s.jobs| ==> Live(s, s.jobs[step.job])
  }

  /** A snapshot lists the relay's whole queue. */
  ghost predicate Complete(s: System, step: Step) {
    step.TakeSnapshot? ==> forall q | q in s.held :: Lists(step.entries, q)
  }

  /** A snapshot reaches the database within the delay or not at all. */
  predicate Within(s: System, step: Step, delay: Time) {
    step.Report? && step.snapshot < |s.snapshots| ==> s.now <= s.snapshots[step.snapshot].takenAt + delay
  }

  predicate Lists(entries: seq<QueueEntry>, q: string) {
    exists k :: 0 <= k < |entries| && entries[k].queueId == q
  }

  /** Every step of the run is taken under the lease assumption. */
  ghost predicate AllLeased(s: System, steps: seq<Step>)
    requires Runs(s, steps)
    decreases |steps|
  {
    steps != [] ==> Leased(s, steps[0]) && AllLeased(Apply(s, steps[0]), steps[1..])
  }

  /** The report assumption: every snapshot is complete and arrives within the delay. */
  ghost predicate AllPrompt(s: System, steps: seq<Step>, delay: Time)
    requires Runs(s, steps)
    decreases |steps|
  {
    steps != [] ==>
      && Complete(s, steps[0]) && Within(s, steps[0], delay)
      && AllPrompt(Apply(s, steps[0]), steps[1..], delay)
  }

  // -------------------------------------------------------------- frame

  lemma ReportKeeps(s: System, k: nat)
    requires Enabled(s, Report(k))
    ensures var s' := Apply(s, Report(k));
            && |s'.db.messages| == |s.db.messages|
            && forall i | 0 <= i < |s.db.messages| ::
                 var m, m' := s.db.messages[i], s'.db.messages[i];
                 m' == m.(relayState := m'.relayState, relayDetail := m'.relayDetail, relayStateAt := m'.relayStateAt)
  {
  }

  /** A purge takes the content and the files of messages that are due for it, and nothing else. */
  lemma PurgeKeeps(s: System, days: int)
    ensures var s' := Apply(s, Purge(days));
            && s' == s.(db := s.db.(messages := s'.db.messages, attachments := s'.db.attachments))
            && |s'.db.messages| == |s.db.messages|
            && forall i | 0 <= i < |s.db.messages| ::
                 var m, m' := s.db.messages[i], s'.db.messages[i];
                 if Queue.PurgeDue(m, s.now, days)
                 then m' == m.(content := Queue.Blanked(m.content), bodyPurgedAt := Some(s.now))
                 else m' == m
  {
  }
}
