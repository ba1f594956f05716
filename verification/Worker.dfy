/** How a worker relays the batch it claimed: several messages at a time, never too many, and all of
    them before it claims again. */
module Worker {
  import opened Wrappers

  datatype Event = Started(message: nat) | Joined(message: nat)

  /** The deliveries under way after these events. */
  function InFlight(events: seq<Event>): set<nat> {
    if events == [] then {}
    else
      match events[|events| - 1]
      case Started(m) => InFlight(events[..|events| - 1]) + {m}
      case Joined(m) => InFlight(events[..|events| - 1]) - {m}
  }

  function Starts(events: seq<Event>): seq<nat> {
    if events == [] then []
    else
      match events[|events| - 1]
      case Started(m) => Starts(events[..|events| - 1]) + [m]
      case Joined(_) => Starts(events[..|events| - 1])
  }

  /** Each delivery is started once and joined while it is under way; none is started with no room for
      it, and while messages are left to start, none is waited for while there is room. */
  predicate Orderly(events: seq<Event>, limit: nat, total: nat) {
    events == [] ||
    (var before := events[..|events| - 1];
     Orderly(before, limit, total) &&
     match events[|events| - 1]
     case Started(m) => m !in Starts(before) && |InFlight(before)| < limit
     case Joined(m) => m in InFlight(before) && (|Starts(before)| < total ==> |InFlight(before)| >= limit))
  }

  lemma Next(events: seq<Event>, e: Event)
    ensures (events + [e])[..|events|] == events && (events + [e])[|events|] == e
  {
  }

  /** Relay a claimed batch. Which delivery finishes next is not up to the worker. */
  method RelayBatch(claimed: seq<nat>, concurrency: nat) returns (events: seq<Event>)
    requires concurrency > 0 && Distinct(claimed)
    ensures Orderly(events, concurrency, |claimed|)
    ensures Starts(events) == claimed && InFlight(events) == {}
  {
    hide Orderly;
    events := [];
    var deliveries: set<nat> := {};
    assert Orderly([], concurrency, |claimed|) by { OrderlyAtFirst(concurrency, |claimed|); }
    for next := 0 to |claimed|
      invariant deliveries == InFlight(events) && Starts(events) == claimed[..next]
      invariant Orderly(events, concurrency, |claimed|)
    {
      while |deliveries| >= concurrency
        invariant deliveries == InFlight(events) && Starts(events) == claimed[..next]
        invariant Orderly(events, concurrency, |claimed|)
        decreases |deliveries|
      {
        events, deliveries := JoinOne(events, deliveries, concurrency, |claimed|);
      }
      assert claimed[next] !in claimed[..next];
      Start(events, claimed[next], concurrency, |claimed|);
      deliveries := deliveries + {claimed[next]};
      events := events + [Started(claimed[next])];
      assert claimed[..next + 1] == claimed[..next] + [claimed[next]];
    }
    assert claimed[..|claimed|] == claimed;
    while deliveries != {}
      invariant deliveries == InFlight(events) && Starts(events) == claimed
      invariant Orderly(events, concurrency, |claimed|)
      decreases |deliveries|
    {
      events, deliveries := JoinOne(events, deliveries, concurrency, |claimed|);
    }
  }

  lemma OrderlyAtFirst(limit: nat, total: nat)
    ensures Orderly([], limit, total)
  {
  }

  lemma Start(events: seq<Event>, m: nat, limit: nat, total: nat)
    requires Orderly(events, limit, total) && m !in Starts(events) && |InFlight(events)| < limit
    ensures var after := events + [Started(m)];
            Orderly(after, limit, total) && InFlight(after) == InFlight(events) + {m}
            && Starts(after) == Starts(events) + [m]
  {
  }

  method JoinOne(events: seq<Event>, deliveries: set<nat>, limit: nat, total: nat)
    returns (after: seq<Event>, remaining: set<nat>)
    requires deliveries == InFlight(events) && deliveries != {}
    requires Orderly(events, limit, total)
    requires |Starts(events)| < total ==> |deliveries| >= limit
    ensures Orderly(after, limit, total) && Starts(after) == Starts(events)
    ensures remaining == InFlight(after) && |remaining| < |deliveries|
  {
    var done :| done in deliveries;
    remaining := deliveries - {done};
    after := events + [Joined(done)];
    Next(events, Joined(done));
  }

  // ------------------------------------------------- what an orderly run is

  lemma {:induction false} PrefixOrderly(events: seq<Event>, limit: nat, total: nat, k: nat)
    requires Orderly(events, limit, total) && k <= |events|
    ensures Orderly(events[..k], limit, total)
    decreases |events|
  {
    if k < |events| {
      PrefixOrderly(events[..|events| - 1], limit, total, k);
      assert events[..|events| - 1][..k] == events[..k];
    } else {
      assert events[..k] == events;
    }
  }

  /** What is under way is what was started and is not joined yet. */
  lemma {:induction false} UnderWay(events: seq<Event>, limit: nat, total: nat)
    requires Orderly(events, limit, total)
    ensures forall m :: m in InFlight(events) <==> m in Starts(events) && Joined(m) !in events
    ensures forall m :: Joined(m) in events ==> m in Starts(events)
    decreases |events|
  {
    if events != [] {
      var before, last := events[..|events| - 1], events[|events| - 1];
      UnderWay(before, limit, total);
      assert events == before + [last];
    }
  }

  lemma {:induction false} AtMost(events: seq<Event>, limit: nat, total: nat)
    requires Orderly(events, limit, total)
    ensures |InFlight(events)| <= limit
    decreases |events|
  {
    if events != [] {
      AtMost(events[..|events| - 1], limit, total);
    }
  }

  /** At every moment of a run at most `limit` deliveries are under way. */
  lemma NeverTooMany(events: seq<Event>, limit: nat, total: nat, k: nat)
    requires Orderly(events, limit, total) && k <= |events|
    ensures |InFlight(events[..k])| <= limit
  {
    PrefixOrderly(events, limit, total, k);
    AtMost(events[..k], limit, total);
  }

  /** Once nothing is under way every message started has been joined. */
  lemma AllJoined(events: seq<Event>, limit: nat, total: nat)
    requires Orderly(events, limit, total) && InFlight(events) == {}
    ensures forall m | m in Starts(events) :: Joined(m) in events
  {
    UnderWay(events, limit, total);
  }

  /** While a message of the batch is waiting to be started, a delivery is only waited for when as many as
      allowed are under way. */
  lemma WaitsOnlyWhenFull(events: seq<Event>, limit: nat, total: nat, k: nat)
    requires Orderly(events, limit, total) && k < |events| && events[k].Joined? && |Starts(events[..k])| < total
    ensures |InFlight(events[..k])| == limit
  {
    PrefixOrderly(events, limit, total, k + 1);
    assert events[..k + 1][..k] == events[..k];
    AtMost(events[..k], limit, total);
  }

  /** What has been started is what a start says. */
  lemma {:induction false} StartsAre(events: seq<Event>, limit: nat, total: nat)
    requires Orderly(events, limit, total)
    ensures forall m :: m in Starts(events) <==> Started(m) in events
    ensures forall i, j | 0 <= i < j < |Starts(events)| :: Starts(events)[i] != Starts(events)[j]
    decreases |events|
  {
    if events != [] {
      var before, last := events[..|events| - 1], events[|events| - 1];
      StartsAre(before, limit, total);
      assert events == before + [last];
    }
  }

  /** No message is joined twice. */
  lemma JoinedOnce(events: seq<Event>, limit: nat, total: nat, j: nat, k: nat)
    requires Orderly(events, limit, total) && j < k < |events|
    requires events[j].Joined? && events[k].Joined?
    ensures events[j] != events[k]
  {
    var before := events[..k];
    PrefixOrderly(events, limit, total, k + 1);
    assert events[..k + 1][..k] == before && events[..k + 1][k] == events[k];
    UnderWay(before, limit, total);
    assert before[j] == events[j];
  }
}
