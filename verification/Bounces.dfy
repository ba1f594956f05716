/** From the text of a bounce to the silence that follows it. */
module Bounces {
  import opened Wrappers
  import opened Schema
  import opened Protocol
  import opened Safety
  import Database
  import Dsn
  import Queue
  import SuppressionList
  import Text

  /** The statement that puts a dead mailbox on the list for everyone. */
  function Blocking(r: Dsn.Report): Step
    requires Database.Suppresses(r)
  {
    Block(None, r.finalRecipient.value, "hard_bounce", "dsn", r.diagnostic)
  }

  function ReportStatements(messages: seq<Message>, raw: string, r: Dsn.Report): seq<Step> {
    [StoreBounce(Database.BounceRow(messages, raw, r))] + if Database.Suppresses(r) then [Blocking(r)] else []
  }

  function StatementsFor(messages: seq<Message>, raw: string, reports: seq<Dsn.Report>): seq<Step> {
    if reports == [] then []
    else StatementsFor(messages, raw, reports[..|reports| - 1])
         + ReportStatements(messages, raw, reports[|reports| - 1])
  }

  /** The statements taking in one notification makes, each a transaction of its own. */
  function Statements(messages: seq<Message>, raw: string): seq<Step> {
    var reports := Dsn.Meaning(raw);
    if reports == [] then [StoreBounce(Bounce(raw, None, None, None, None, None, None))]
    else StatementsFor(messages, raw, reports)
  }

  lemma {:induction false} RunsOn(s: System, first: seq<Step>, rest: seq<Step>)
    requires Runs(s, first) && Runs(After(s, first), rest)
    ensures Runs(s, first + rest) && After(s, first + rest) == After(After(s, first), rest)
    decreases |first|
  {
    if first == [] {
      assert first + rest == rest;
    } else {
      hide Enabled, Apply;
      RunsOn(Apply(s, first[0]), first[1..], rest);
      assert (first + rest)[1..] == first[1..] + rest;
    }
  }

  lemma OneStep(s: System, a: Step)
    requires Enabled(s, a)
    ensures Runs(s, [a]) && After(s, [a]) == Apply(s, a)
  {
  }

  lemma TwoSteps(s: System, a: Step, b: Step)
    requires Enabled(s, a) && Enabled(Apply(s, a), b)
    ensures Runs(s, [a, b]) && After(s, [a, b]) == Apply(Apply(s, a), b)
  {
    hide Enabled, Apply;
    OneStep(Apply(s, a), b);
    assert [a, b][1..] == [b];
  }

  lemma ReportStatementsRun(s: System, raw: string, r: Dsn.Report)
    ensures var steps := ReportStatements(s.db.messages, raw, r);
            && Runs(s, steps)
            && After(s, steps) == s.(db := Database.AfterReport(s.db, s.now, raw, r))
  {
    hide Database.BounceRow, Dsn.ShouldSuppress, SuppressionList.Add, Runs, After;
    var store := StoreBounce(Database.BounceRow(s.db.messages, raw, r));
    if Database.Suppresses(r) {
      TwoSteps(s, store, Blocking(r));
      assert ReportStatements(s.db.messages, raw, r) == [store, Blocking(r)];
    } else {
      OneStep(s, store);
      assert ReportStatements(s.db.messages, raw, r) == [store];
    }
  }

  lemma {:induction false} StatementsForRun(s: System, raw: string, reports: seq<Dsn.Report>)
    ensures var steps := StatementsFor(s.db.messages, raw, reports);
            && Runs(s, steps)
            && After(s, steps) == s.(db := Database.AfterReports(s.db, s.now, raw, reports))
    decreases |reports|
  {
    if reports != [] {
      hide Runs, After, ReportStatements, Database.AfterReport;
      var front, last := reports[..|reports| - 1], reports[|reports| - 1];
      StatementsForRun(s, raw, front);
      Database.SameMessages(s.db, s.now, raw, front);
      var before := StatementsFor(s.db.messages, raw, front);
      ReportStatementsRun(After(s, before), raw, last);
      RunsOn(s, before, ReportStatements(s.db.messages, raw, last));
    }
  }

  /** Run with nothing in between, the statements leave what `Store.Ingest` leaves. */
  lemma StatementsAreIngest(s: System, raw: string)
    ensures var steps := Statements(s.db.messages, raw);
            && Runs(s, steps)
            && After(s, steps) == s.(db := Database.AfterNotification(s.db, s.now, raw))
  {
    hide Dsn.Meaning;
    if Dsn.Meaning(raw) == [] {
      assert Statements(s.db.messages, raw)[1..] == [];
    } else {
      StatementsForRun(s, raw, Dsn.Meaning(raw));
    }
  }

  /** The state after the statement for a suppressing report. */
  ghost function Reported(s: System, r: Dsn.Report): System
    requires Database.Suppresses(r)
  {
    Apply(s, Blocking(r))
  }

  /** Whatever happens between the statements: from the one for a suppressing report of the text on,
      every later new message to its recipient, of any tenant and however the address is capitalised,
      is stored as suppressed and no worker is ever given it, until the row is lifted. */
  lemma ReportedIsNeverSent(
    s: System, raw: string, k: nat, between: seq<Step>, draft: Draft, since: seq<Step>, claim: Step)
    requires Sane(s) && k < |Dsn.Meaning(raw)| && Database.Suppresses(Dsn.Meaning(raw)[k])
    requires var s1 := Reported(s, Dsn.Meaning(raw)[k]);
             var address := Dsn.Meaning(raw)[k].finalRecipient.value;
             && Runs(s1, between) && KeepsBlocked(s1, between, address)
             && Text.Lower(draft.content.rcptTo) == Text.Lower(address)
             && var s2 := After(s1, between);
                && Queue.Lookup(s2.db.messages, draft.tenant, draft.key).None?
                && Runs(Apply(s2, Submit(draft)), since)
                && claim.Claim? && Enabled(After(Apply(s2, Submit(draft)), since), claim)
    ensures var s2 := After(Reported(s, Dsn.Meaning(raw)[k]), between);
            var receipt := Queue.Accept(s2.db, s2.now, draft).1;
            receipt.status == Suppressed && receipt.id !in claim.ids
  {
    var r := Dsn.Meaning(raw)[k];
    StepKeepsSane(s, Blocking(r));
    var s1 := Reported(s, r);
    hide Dsn.Meaning, Dsn.ShouldSuppress, Sane, Runs, After, KeepsBlocked, Queue.Accept, Queue.Lookup, Text.Lower;
    ListedIsNeverSent(s1, r.finalRecipient.value, between, draft, since, claim);
  }

  /** The same once the whole notification has been taken in: from its text alone. */
  lemma IngestedIsNeverSent(
    s: System, raw: string, k: nat, between: seq<Step>, draft: Draft, since: seq<Step>, claim: Step)
    requires Sane(s) && k < |Dsn.Meaning(raw)| && Database.Suppresses(Dsn.Meaning(raw)[k])
    requires var s1 := s.(db := Database.AfterNotification(s.db, s.now, raw));
             var address := Dsn.Meaning(raw)[k].finalRecipient.value;
             && Runs(s1, between) && KeepsBlocked(s1, between, address)
             && Text.Lower(draft.content.rcptTo) == Text.Lower(address)
             && var s2 := After(s1, between);
                && Queue.Lookup(s2.db.messages, draft.tenant, draft.key).None?
                && Runs(Apply(s2, Submit(draft)), since)
                && claim.Claim? && Enabled(After(Apply(s2, Submit(draft)), since), claim)
    ensures var s2 := After(s.(db := Database.AfterNotification(s.db, s.now, raw)), between);
            var receipt := Queue.Accept(s2.db, s2.now, draft).1;
            receipt.status == Suppressed && receipt.id !in claim.ids
  {
    var reports := Dsn.Meaning(raw);
    var s1 := s.(db := Database.AfterNotification(s.db, s.now, raw));
    hide Dsn.Meaning, Dsn.ShouldSuppress, Runs, After, KeepsBlocked, Queue.Accept, Queue.Lookup, Text.Lower;
    StatementsAreIngest(s, raw);
    RunKeepsSane(s, Statements(s.db.messages, raw));
    Database.ReportsLeave(s.db, s.now, raw, reports);
    hide Sane;
    ListedIsNeverSent(s1, reports[k].finalRecipient.value, between, draft, since, claim);
  }
}
