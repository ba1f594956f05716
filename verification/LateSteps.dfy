/** Runs in which an assumption is broken, to show that each of them is needed. */
module LateSteps {
  import opened Wrappers
  import opened Schema
  import opened Protocol
  import Queue
  import Reconcile
  import Lease
  import RelayTruth

  /** A run that reaches `s'`: what a concrete example builds up one step at a time. */
  ghost predicate Reaches(s: System, steps: seq<Step>, s': System) {
    Runs(s, steps) && After(s, steps) == s'
  }

  /** One more step at the end of a run; what assumption it keeps joins those of the others. */
  lemma {:induction false} Extend(s: System, steps: seq<Step>, s': System, step: Step, delay: Time)
    returns (more: seq<Step>, t: System)
    requires Reaches(s, steps, s') && Enabled(s', step)
    ensures more == steps + [step] && t == Apply(s', step) && Reaches(s, more, t)
    ensures AllLeased(s, steps) && Leased(s', step) ==> AllLeased(s, more)
    ensures AllPrompt(s, steps, delay) && Complete(s', step) && Within(s', step, delay) ==> AllPrompt(s, more, delay)
    decreases |steps|
  {
    more, t := steps + [step], Apply(s', step);
    if steps == [] {
      assert more[1..] == [];
    } else {
      var rest, u := Extend(Apply(s, steps[0]), steps[1..], s', step, delay);
      assert more[1..] == rest;
    }
  }

  const CONTENT := Content("a@x", None, "b@y", None, "", None, None)
  const DRAFT := Draft(0, "k", CONTENT, [])
  const ROW := Queue.NewMessage(0, DRAFT, false)

  function WithRow(row: Message): Tables {
    Tables([row], [], [], [], [])
  }

  /** The message's row at a claim. */
  function ClaimedRow(worker: string, at: Time): Message {
    ROW.(claimedAt := Some(at), claimedBy := Some(worker))
  }

  function ClaimedState(): System {
    System(0, WithRow(ClaimedRow("first", 0)), [Job(0, 0, 0, Holding)], [], {}, map[], [])
  }

  lemma NoStep(s: System)
    ensures Reaches(s, [], s) && AllLeased(s, []) && forall delay :: AllPrompt(s, [], delay)
  {
  }

  /** One message accepted and claimed. */
  lemma OneHolder(delay: Time) returns (steps: seq<Step>)
    ensures Reaches(Start(0), steps, ClaimedState())
    ensures AllLeased(Start(0), steps) && AllPrompt(Start(0), steps, delay)
  {
    var s := Start(0);
    NoStep(s);
    hide Runs, After, AllLeased, AllPrompt;
    steps, s := Extend(s, [], s, Submit(DRAFT), delay);
    assert s.db.messages == [ROW];
    assert Queue.Claimable(ROW, 0);
    steps, s := Extend(Start(0), steps, s, Claim("first", 1, {}, [0]), delay);
    assert s.db.messages == [ClaimedRow("first", 0)];
    assert s.jobs == [Job(0, 0, 0, Holding)];
  }

  function ContestedState(): System {
    var now := Queue.CLAIM_TIMEOUT + 1;
    System(now, WithRow(ClaimedRow("second", now)),
           [Job(0, 0, 0, Answered(Accepted(Some("Q1")))), Job(0, 0, now, Holding)],
           [], {"Q1"}, map["Q1" := 0], [])
  }

  function SilentState(): System {
    System(Queue.CLAIM_TIMEOUT + 1, WithRow(ClaimedRow("first", 0)),
           [Job(0, 0, 0, Answered(Accepted(Some("Q1"))))], [], {"Q1"}, map["Q1" := 0], [])
  }

  /** The worker hands the message over and then says nothing for longer than the claim timeout. */
  lemma SilentHolder(delay: Time) returns (steps: seq<Step>)
    ensures Reaches(Start(0), steps, SilentState()) && AllPrompt(Start(0), steps, delay)
  {
    hide Runs, After, AllLeased, AllPrompt;
    steps := OneHolder(delay);
    var s := ClaimedState();
    steps, s := Extend(Start(0), steps, s, HandOver(0, Accepted(Some("Q1"))), delay);
    assert s.held == {"Q1"} && s.entered == map["Q1" := 0];
    steps, s := Extend(Start(0), steps, s, Tick(Queue.CLAIM_TIMEOUT + 1), delay);
    assert s == SilentState();
  }

  /** So a second worker claims it too. */
  lemma TwoHolders(delay: Time) returns (steps: seq<Step>)
    ensures Reaches(Start(0), steps, ContestedState()) && AllPrompt(Start(0), steps, delay)
  {
    hide Runs, After, AllLeased, AllPrompt;
    steps := SilentHolder(delay);
    var s := SilentState();
    var claim := Claim("second", 1, {}, [0]);
    assert Queue.Claimable(s.db.messages[0], s.now);
    steps, s := Extend(Start(0), steps, s, claim, delay);
    assert s.db.messages == [ClaimedRow("second", s.now)];
    assert s.jobs == ContestedState().jobs;
  }

  /** Without the lease a finished row is overwritten: a message recorded as failed becomes sent when
      the first worker records after all, and its log then has two first attempts. */
  lemma LateRecordOverwrites()
    ensures exists steps, s, j ::
              && Reaches(Start(0), steps, s) && Enabled(s, Record(j)) && !Leased(s, Record(j))
              && s.db.messages[0].status.Failed? && Lease.Tells(Lease.LogOf(s.db.log, 0), s.db.messages[0])
              && var s' := Apply(s, Record(j));
                 s'.db.messages[0].status.Sent? && !Lease.Tells(Lease.LogOf(s'.db.log, 0), s'.db.messages[0])
  {
    var delay := GRACE;
    var steps := TwoHolders(delay);
    var refusal := Refusal(Some(550), "no");
    var s, t: System;
    hide Runs, After, AllLeased, AllPrompt;
    steps, s := Extend(Start(0), steps, ContestedState(), HandOver(1, refusal), delay);
    steps, t := Extend(Start(0), steps, s, Record(1), delay);
    OverwritingIsUntold(s.db, s.now, refusal, t.now, Accepted(Some("Q1")));
    assert Reaches(Start(0), steps, t) && Enabled(t, Record(0));
  }

  /** Two first attempts are no history. */
  lemma OverwritingIsUntold(db: Tables, first: Time, refusal: Outcome, second: Time, late: Outcome)
    requires |db.messages| == 1 && db.log == [] && refusal.Refusal?
    ensures var db1 := Queue.Settle(db, first, 0, 0, refusal);
            var db2 := Queue.Settle(db1, second, 0, 0, late);
            && Lease.Tells(Lease.LogOf(db1.log, 0), db1.messages[0])
            && !Lease.Tells(Lease.LogOf(db2.log, 0), db2.messages[0])
  {
  }

  /** The second worker's copy has been handed over, recorded and let go of; the first worker's copy is
      still with the relay. */
  function ResolvedRow(): Message {
    ClaimedRow("second", 0).(
      status := Sent, attempts := 1, relayQueueId := Some("Q2"), claimedAt := None, claimedBy := None,
      completedAt := Some(Queue.CLAIM_TIMEOUT + 1), lastError := None)
  }

  lemma SecondCopyDelivered(delay: Time) returns (steps: seq<Step>, s: System)
    ensures Reaches(Start(0), steps, s) && AllPrompt(Start(0), steps, delay)
    ensures s.now == Queue.CLAIM_TIMEOUT + 1
    ensures s.db.messages == [ResolvedRow()] && s.db.bounces == [] && s.snapshots == []
    ensures s.held == {"Q1"} && |s.jobs| == 2 && s.jobs[0] == Job(0, 0, 0, Answered(Accepted(Some("Q1"))))
  {
    hide Runs, After, AllLeased, AllPrompt;
    steps := TwoHolders(delay);
    steps, s := Extend(Start(0), steps, ContestedState(), HandOver(1, Accepted(Some("Q2"))), delay);
    assert s.held == {"Q1", "Q2"};
    steps, s := Extend(Start(0), steps, s, Record(1), delay);
    assert s.db.messages == [ResolvedRow()];
    steps, s := Extend(Start(0), steps, s, RelayLetsGo("Q2"), delay);
    assert s.held == {"Q1"};
  }

  /** Without the lease even prompt, complete snapshots are not enough: every label is true, and the
      row is rightly marked delivered for the second worker's hand-over, when the first worker,
      recording late, puts the id of a copy the relay still holds under that label. */
  lemma LateRecordFalsifiesDelivered()
    ensures exists steps, s, j ::
              && Reaches(Start(0), steps, s) && AllPrompt(Start(0), steps, GRACE)
              && RelayTruth.LabelsTrue(s) && |s.db.messages| == 1
              && s.db.messages[0].relayState == Some(Delivered)
              && Enabled(s, Record(j)) && !Leased(s, Record(j))
              && !RelayTruth.LabelsTrue(Apply(s, Record(j)))
  {
    var delay := GRACE;
    hide Runs, After, AllLeased, AllPrompt;
    var steps, s := SecondCopyDelivered(delay);
    var entries := [QueueEntry("Q1", "deferred", None)];
    steps, s := Extend(Start(0), steps, s, Tick(GRACE + 1), delay);
    assert entries[0].queueId == "Q1";
    steps, s := Extend(Start(0), steps, s, TakeSnapshot(entries), delay);
    assert s.snapshots == [Snapshot(s.now, entries)];
    assert Reconcile.Departed(ResolvedRow(), entries, [], s.now, GRACE);
    steps, s := Extend(Start(0), steps, s, Report(0), delay);
    assert s.db.messages == [Reconcile.Deliver(ResolvedRow(), s.now)];
    assert RelayTruth.LabelsTrue(s);
    var t := Apply(s, Record(0));
    assert t.db.messages[0].relayState == Some(Delivered) && t.db.messages[0].relayQueueId == Some("Q1");
    assert "Q1" in t.held && !RelayTruth.Truthful(t, t.db.messages[0]);
  }

  function HandedRow(): Message {
    ClaimedRow("first", 0).(
      status := Sent, attempts := 1, relayQueueId := Some("Q"), claimedAt := None, claimedBy := None,
      completedAt := Some(0), lastError := None)
  }

  /** A complete snapshot that arrives one microsecond later than the grace allows can mark a message
      delivered that the relay holds, every worker keeping its lease. */
  lemma LateReportFalsifiesDelivered() returns (steps: seq<Step>)
    ensures Runs(Start(0), steps) && AllLeased(Start(0), steps) && AllPrompt(Start(0), steps, GRACE + 1)
    ensures !RelayTruth.LabelsTrue(After(Start(0), steps))
  {
    var delay := GRACE + 1;
    steps := OneHolder(delay);
    var s := ClaimedState();
    hide Runs, After, AllLeased, AllPrompt;
    steps, s := Extend(Start(0), steps, s, TakeSnapshot([]), delay);
    assert s.snapshots == [Snapshot(0, [])];
    steps, s := Extend(Start(0), steps, s, HandOver(0, Accepted(Some("Q"))), delay);
    steps, s := Extend(Start(0), steps, s, Record(0), delay);
    assert s.db.messages == [HandedRow()];
    steps, s := Extend(Start(0), steps, s, Tick(GRACE + 1), delay);
    assert Reconcile.Departed(HandedRow(), [], [], s.now, GRACE);
    steps, s := Extend(Start(0), steps, s, Report(0), delay);
    assert s.db.messages == [Reconcile.Deliver(HandedRow(), s.now)];
    assert "Q" in s.held && !RelayTruth.Truthful(s, s.db.messages[0]);
  }

  /** Every run in which workers keep their leases and snapshots are complete and arrive within the
      delay ends with every label true. */
  ghost predicate SafeWithin(delay: Time) {
    forall start, steps | Runs(Start(start), steps) ::
      AllLeased(Start(start), steps) && AllPrompt(Start(start), steps, delay) ==>
        RelayTruth.LabelsTrue(After(Start(start), steps))
  }

  lemma {:induction false} PromptForLonger(s: System, steps: seq<Step>, delay: Time, longer: Time)
    requires Runs(s, steps) && AllPrompt(s, steps, delay) && delay <= longer
    ensures AllPrompt(s, steps, longer)
    decreases |steps|
  {
    if steps != [] {
      PromptForLonger(Apply(s, steps[0]), steps[1..], delay, longer);
    }
  }

  /** The grace is exactly the delay that is safe: no label is ever false if and only if complete
      snapshots arrive within it. */
  lemma GraceIsExact(delay: Time)
    ensures SafeWithin(delay) <==> delay <= 15_000_000
  {
    hide Runs, After, AllLeased, AllPrompt, RelayTruth.LabelsTrue;
    if delay <= GRACE {
      forall start, steps |
        Runs(Start(start), steps) && AllLeased(Start(start), steps) && AllPrompt(Start(start), steps, delay)
        ensures RelayTruth.LabelsTrue(After(Start(start), steps))
      {
        PromptForLonger(Start(start), steps, delay, GRACE);
        RelayTruth.LeasedLabels(start, steps);
      }
    } else {
      var steps := LateReportFalsifiesDelivered();
      PromptForLonger(Start(0), steps, GRACE + 1, delay);
      assert !RelayTruth.LabelsTrue(After(Start(0), steps));
    }
  }
}
