/** What one snapshot of the relay's queue means for the messages that were handed to it. */
module Reconcile {
  import opened Wrappers
  import opened Schema

  function StateOf(e: QueueEntry): RelayState {
    if e.queueName in {"active", "incoming", "maildrop"} then Active else Deferred
  }

  predicate Names(e: QueueEntry, m: Message) {
    m.relayQueueId == Some(e.queueId)
  }

  /** Does the entry say something about the message that its row does not say yet? */
  predicate Differs(m: Message, e: QueueEntry) {
    Names(e, m) && (m.relayState != Some(StateOf(e)) || m.relayDetail != e.reason)
  }

  /** The update one entry makes to one row. */
  function Touch(m: Message, e: QueueEntry, now: Time): Message {
    if Differs(m, e)
    then m.(relayState := Some(StateOf(e)), relayDetail := e.reason, relayStateAt := Some(now))
    else m
  }

  predicate Told(m: Message, entries: seq<QueueEntry>) {
    exists k :: 0 <= k < |entries| && Differs(m, entries[k])
  }

  predicate Present(m: Message, entries: seq<QueueEntry>) {
    exists k :: 0 <= k < |entries| && Names(entries[k], m)
  }

  predicate Known(messages: seq<Message>, e: QueueEntry) {
    exists i :: 0 <= i < |messages| && Names(e, messages[i])
  }

  predicate Bounced(m: Message, bounces: seq<Bounce>) {
    exists b :: 0 <= b < |bounces| && bounces[b].relayQueueId.Some? && bounces[b].relayQueueId == m.relayQueueId
  }

  /** The last entry that names the message. */
  function LastWord(m: Message, entries: seq<QueueEntry>): (e: QueueEntry)
    requires Present(m, entries)
    ensures e in entries && Names(e, m)
    decreases |entries|
  {
    var last := |entries| - 1;
    if Names(entries[last], m) then entries[last]
    else
      assert forall k | 0 <= k < last :: entries[..last][k] == entries[k];
      LastWord(m, entries[..last])
  }

  /** Concluded to have left the queue cleanly: handed over, old enough, absent, never bounced. */
  predicate Departed(m: Message, entries: seq<QueueEntry>, bounces: seq<Bounce>, now: Time, grace: Time) {
    && m.relayQueueId.Some?
    && m.status.Sent?
    && m.relayState != Some(Delivered)
    && m.completedAt.Some? && m.completedAt.value < now - grace
    && !Present(m, entries)
    && !Bounced(m, bounces)
  }

  function Deliver(m: Message, now: Time): Message {
    m.(relayState := Some(Delivered), relayDetail := None, relayStateAt := Some(now))
  }

  /** The row after the entries have been gone through: what the last entry naming it says, stamped
      only if some entry said something new. */
  function Heard(m: Message, entries: seq<QueueEntry>, now: Time): Message {
    if Told(m, entries)
    then var e := LastWord(m, entries);
         m.(relayState := Some(StateOf(e)), relayDetail := e.reason, relayStateAt := Some(now))
    else m
  }

  /** The whole effect of a snapshot on one row. */
  function Reconciled(m: Message, entries: seq<QueueEntry>, bounces: seq<Bounce>, now: Time, grace: Time): Message {
    if Departed(m, entries, bounces, now, grace) then Deliver(m, now) else Heard(m, entries, now)
  }

  function ReconcileAll(messages: seq<Message>, entries: seq<QueueEntry>, bounces: seq<Bounce>,
                        now: Time, grace: Time): (r: seq<Message>)
    ensures |r| == |messages|
    ensures forall i | 0 <= i < |messages| :: r[i] == Reconciled(messages[i], entries, bounces, now, grace)
  {
    seq(|messages|, i requires 0 <= i < |messages| => Reconciled(messages[i], entries, bounces, now, grace))
  }

  /** How many entries name no message at all. */
  function Unmatched(messages: seq<Message>, entries: seq<QueueEntry>): nat {
    if entries == [] then 0
    else Unmatched(messages, entries[..|entries| - 1])
         + if Known(messages, entries[|entries| - 1]) then 0 else 1
  }

  /** How many messages a snapshot newly concludes to be delivered. */
  function Departures(messages: seq<Message>, entries: seq<QueueEntry>, bounces: seq<Bounce>,
                      now: Time, grace: Time): nat {
    if messages == [] then 0
    else Departures(messages[..|messages| - 1], entries, bounces, now, grace)
         + if Departed(messages[|messages| - 1], entries, bounces, now, grace) then 1 else 0
  }

  lemma PrefixOf<T>(s: seq<T>, x: T)
    ensures (s + [x])[..|s|] == s
  {
  }

  /** One more entry is one more touch. */
  lemma HeardStep(m: Message, entries: seq<QueueEntry>, e: QueueEntry, now: Time)
    ensures Heard(m, entries + [e], now) == Touch(Heard(m, entries, now), e, now)
    ensures Present(m, entries + [e]) <==> Present(m, entries) || Names(e, m)
  {
    var more := entries + [e];
    PrefixOf(entries, e);
    assert more[|entries|] == e;
    assert forall k | 0 <= k < |entries| :: more[k] == entries[k];
    if Told(m, entries) {
      var k :| 0 <= k < |entries| && Differs(m, entries[k]);
      assert Differs(m, more[k]) && Names(entries[k], m) && Names(more[k], m);
    } else if Names(e, m) && Differs(m, e) {
      assert Names(more[|entries|], m);
    } else {
      assert !Told(m, more);
    }
    if Present(m, entries) {
      var k :| 0 <= k < |entries| && Names(entries[k], m);
      assert Names(more[k], m);
    }
  }

  /** A snapshot never changes which queue id a message has, nor anything but the relay columns. */
  lemma OnlyRelayColumns(m: Message, entries: seq<QueueEntry>, bounces: seq<Bounce>, now: Time, grace: Time)
    ensures var r := Reconciled(m, entries, bounces, now, grace);
            r == m.(relayState := r.relayState, relayDetail := r.relayDetail, relayStateAt := r.relayStateAt)
  {
  }

  /** The entries that name the message all say the same of it. */
  predicate Agreed(m: Message, entries: seq<QueueEntry>) {
    forall j, k | 0 <= j < |entries| && 0 <= k < |entries| && Names(entries[j], m) && Names(entries[k], m) ::
      StateOf(entries[j]) == StateOf(entries[k]) && entries[j].reason == entries[k].reason
  }

  /** Replaying a snapshot at the same instant changes nothing, timestamps included. */
  lemma ReplayNow(m: Message, entries: seq<QueueEntry>, bounces: seq<Bounce>, now: Time, grace: Time)
    ensures var r := Reconciled(m, entries, bounces, now, grace);
            Reconciled(r, entries, bounces, now, grace) == r
  {
    var r := Reconciled(m, entries, bounces, now, grace);
    SamePresence(m, r, entries);
    if Departed(m, entries, bounces, now, grace) {
      Silent(r, entries);
    } else if Told(m, entries) {
      assert Names(LastWord(m, entries), m);
      SameLastWord(m, r, entries);
    }
  }

  /** Replaying it at any other time leaves a message that is in it as it is, timestamp included, if and
      only if the entries that name it agree: a stuck message does not get a new timestamp with every
      report, unless its id is repeated with other words. */
  lemma ReplayLater(m: Message, entries: seq<QueueEntry>, bounces: seq<Bounce>, now: Time, later: Time, grace: Time)
    requires Present(m, entries) && later != now
    ensures var r := Reconciled(m, entries, bounces, now, grace);
            Reconciled(r, entries, bounces, later, grace) == r <==> Agreed(m, entries)
  {
    var r := Reconciled(m, entries, bounces, now, grace);
    SamePresence(m, r, entries);
    AgreedIffUntold(m, entries, now);
    var again := Reconciled(r, entries, bounces, later, grace);
    if Told(m, entries) {
      assert r.relayStateAt == Some(now);
      assert Told(r, entries) ==> again.relayStateAt == Some(later);
    }
  }

  lemma AgreedIffUntold(m: Message, entries: seq<QueueEntry>, now: Time)
    requires Present(m, entries)
    ensures !Told(Heard(m, entries, now), entries) <==> Agreed(m, entries)
  {
  }

  /** The failing side: one id listed with two reasons, and the row is stamped anew at every replay. */
  lemma ReplayOfRepeatedIdRestamps(now: Time, later: Time) returns (m: Message, entries: seq<QueueEntry>)
    requires later != now
    ensures Present(m, entries) && !Agreed(m, entries)
    ensures var r := Reconciled(m, entries, [], now, 0); Reconciled(r, entries, [], later, 0) != r
  {
    hide Reconciled;
    var content := Content("", None, "", None, "", None, None);
    m := Message(0, "", content, Sent, 1, 0, None, None, Some("Q"), None, Some(0), None, None, None, None);
    entries := [QueueEntry("Q", "deferred", Some("first")), QueueEntry("Q", "deferred", Some("second"))];
    assert Names(entries[0], m) && Names(entries[1], m) && entries[0].reason != entries[1].reason;
    ReplayLater(m, entries, [], now, later, 0);
  }

  lemma SamePresence(m: Message, r: Message, entries: seq<QueueEntry>)
    requires m.relayQueueId == r.relayQueueId
    ensures Present(m, entries) <==> Present(r, entries)
  {
  }

  lemma {:induction false} SameLastWord(m: Message, r: Message, entries: seq<QueueEntry>)
    requires m.relayQueueId == r.relayQueueId
    requires Present(m, entries) && Present(r, entries)
    ensures LastWord(m, entries) == LastWord(r, entries)
    decreases |entries|
  {
    var last := |entries| - 1;
    if !Names(entries[last], m) {
      assert forall k | 0 <= k < last :: entries[..last][k] == entries[k];
      SameLastWord(m, r, entries[..last]);
    }
  }

  lemma Silent(m: Message, entries: seq<QueueEntry>)
    requires !Present(m, entries)
    ensures !Told(m, entries)
  {
  }

  /** Did this snapshot turn the row into a delivered one? */
  predicate BecomesDelivered(m: Message, entries: seq<QueueEntry>, bounces: seq<Bounce>, now: Time, grace: Time) {
    && m.relayState != Some(Delivered)
    && Reconciled(m, entries, bounces, now, grace).relayState == Some(Delivered)
  }

  /** A row becomes delivered if and only if it was sent under a queue id and completed before the grace,
      no entry has the id, and no bounce has it. */
  lemma BecomesDeliveredByDeparting(m: Message, entries: seq<QueueEntry>, bounces: seq<Bounce>, now: Time, grace: Time)
    ensures BecomesDelivered(m, entries, bounces, now, grace) <==>
              && m.relayState != Some(Delivered)
              && m.status == Sent && m.relayQueueId.Some?
              && m.completedAt.Some? && m.completedAt.value < now - grace
              && (forall k | 0 <= k < |entries| :: entries[k].queueId != m.relayQueueId.value)
              && forall b | 0 <= b < |bounces| :: bounces[b].relayQueueId != m.relayQueueId
    ensures BecomesDelivered(m, entries, bounces, now, grace) ==>
              Reconciled(m, entries, bounces, now, grace)
              == m.(relayState := Some(Delivered), relayDetail := None, relayStateAt := Some(now))
  {
    if m.relayQueueId.Some? {
      assert forall k | 0 <= k < |entries| :: Names(entries[k], m) <==> entries[k].queueId == m.relayQueueId.value;
    }
  }

  /** A row whose last entry is `entries[k]` says afterwards what that entry says: active in three of the
      relay's queues, deferred in any other, with the reason given. */
  lemma ListedRow(m: Message, entries: seq<QueueEntry>, bounces: seq<Bounce>, now: Time, grace: Time, k: nat)
    requires k < |entries| && m.relayQueueId == Some(entries[k].queueId)
    requires forall j | k < j < |entries| :: entries[j].queueId != entries[k].queueId
    ensures var e, r := entries[k], Reconciled(m, entries, bounces, now, grace);
            && r.relayState == Some(if e.queueName == "active" || e.queueName == "incoming" || e.queueName == "maildrop"
                                    then Active else Deferred)
            && r.relayDetail == e.reason
            && (r.relayState == m.relayState && r.relayDetail == m.relayDetail && Agreed(m, entries) ==> r == m)
            && (r.relayState != m.relayState || r.relayDetail != m.relayDetail ==> r.relayStateAt == Some(now))
  {
    assert Names(entries[k], m);
    IsLastWord(m, entries, k);
    if !Told(m, entries) {
      assert !Differs(m, entries[k]);
    }
  }

  lemma {:induction false} IsLastWord(m: Message, entries: seq<QueueEntry>, k: nat)
    requires k < |entries| && Names(entries[k], m) && forall j | k < j < |entries| :: !Names(entries[j], m)
    ensures Present(m, entries) && LastWord(m, entries) == entries[k]
    decreases |entries|
  {
    var last := |entries| - 1;
    if k < last {
      IsLastWord(m, entries[..last], k);
    }
  }

  /** A row no entry names is left as it is unless it becomes delivered. */
  lemma UnlistedRow(m: Message, entries: seq<QueueEntry>, bounces: seq<Bounce>, now: Time, grace: Time)
    requires forall k | 0 <= k < |entries| :: m.relayQueueId != Some(entries[k].queueId)
    requires !BecomesDelivered(m, entries, bounces, now, grace)
    ensures Reconciled(m, entries, bounces, now, grace) == m
  {
    assert forall k | 0 <= k < |entries| :: !Names(entries[k], m);
  }

  predicate NobodyHas(messages: seq<Message>, queueId: string) {
    forall i | 0 <= i < |messages| :: messages[i].relayQueueId != Some(queueId)
  }

  lemma KnownIff(messages: seq<Message>, e: QueueEntry)
    ensures Known(messages, e) <==> !NobodyHas(messages, e.queueId)
  {
    assert forall i | 0 <= i < |messages| :: Names(e, messages[i]) <==> messages[i].relayQueueId == Some(e.queueId);
  }

  /** The unmatched count is the number of entries under an id no message has. */
  lemma {:induction false} UnmatchedCount(messages: seq<Message>, entries: seq<QueueEntry>)
    ensures Unmatched(messages, entries)
         == |set k | 0 <= k < |entries| && NobodyHas(messages, entries[k].queueId)|
  {
    hide NobodyHas, Known;
    var all := set k | 0 <= k < |entries| && NobodyHas(messages, entries[k].queueId);
    if entries != [] {
      var last := |entries| - 1;
      var front := entries[..last];
      UnmatchedCount(messages, front);
      var before := set k | 0 <= k < |front| && NobodyHas(messages, front[k].queueId);
      KnownIff(messages, entries[last]);
      if Known(messages, entries[last]) {
        assert all == before;
      } else {
        assert all == before + {last};
      }
    }
  }

  lemma DepartingDelivers(m: Message, entries: seq<QueueEntry>, bounces: seq<Bounce>, now: Time, grace: Time)
    ensures BecomesDelivered(m, entries, bounces, now, grace) <==> Departed(m, entries, bounces, now, grace)
  {
  }

  /** The delivered count counts the rows that became delivered, no others. */
  lemma {:induction false} DeparturesCount(messages: seq<Message>, entries: seq<QueueEntry>, bounces: seq<Bounce>,
                                           now: Time, grace: Time)
    ensures Departures(messages, entries, bounces, now, grace)
         == |set i | 0 <= i < |messages| && BecomesDelivered(messages[i], entries, bounces, now, grace)|
  {
    hide BecomesDelivered, Departed, Reconciled;
    var newly := set i | 0 <= i < |messages| && BecomesDelivered(messages[i], entries, bounces, now, grace);
    if messages != [] {
      var last := |messages| - 1;
      var front := messages[..last];
      DeparturesCount(front, entries, bounces, now, grace);
      var before := set i | 0 <= i < |front| && BecomesDelivered(front[i], entries, bounces, now, grace);
      DepartingDelivers(messages[last], entries, bounces, now, grace);
      if BecomesDelivered(messages[last], entries, bounces, now, grace) {
        assert newly == before + {last};
      } else {
        assert newly == before;
      }
    }
  }
}
