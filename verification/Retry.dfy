/** The retry schedule of a queued message, in seconds. */
module Retry {
  import opened Wrappers

  const MINUTE: nat := 60
  const HOUR: nat := 60 * MINUTE

  /** Delay before the next attempt, indexed by the number of attempts already made. */
  const SCHEDULE: seq<nat> := [
    MINUTE, 5 * MINUTE, 15 * MINUTE, HOUR, 3 * HOUR, 6 * HOUR, 12 * HOUR, 24 * HOUR, 24 * HOUR
  ]

  /** The attempt after which a message is given up on. */
  const LAST_ATTEMPT: nat := 9

  function Backoff(attemptsMade: nat): (delay: Option<nat>)
    ensures delay.Some? <==> attemptsMade < LAST_ATTEMPT
    ensures delay.Some? ==> MINUTE <= delay.value <= 24 * HOUR
  {
    if attemptsMade < |SCHEDULE| then Some(SCHEDULE[attemptsMade]) else None
  }

  /** The delays a worker asks for, in seconds, after its first to its ninth attempt. */
  lemma DelaysAre()
    ensures Backoff(1) == Some(300) && Backoff(2) == Some(900) && Backoff(3) == Some(3600)
    ensures Backoff(4) == Some(10800) && Backoff(5) == Some(21600) && Backoff(6) == Some(43200)
    ensures Backoff(7) == Some(86400) && Backoff(8) == Some(86400) && Backoff(9) == None
  {
  }

  /** The delays that separate attempt `first` from attempt `last` of one message, added up. */
  function Span(first: nat, last: nat): nat
    requires 1 <= first <= last <= LAST_ATTEMPT
    decreases last - first
  {
    if first == last then 0 else SCHEDULE[first] + Span(first + 1, last)
  }

  /** Waiting out one more delay: the span grows from its far end too. */
  lemma {:induction false} SpanExtends(first: nat, last: nat)
    requires 1 <= first <= last < LAST_ATTEMPT
    ensures Span(first, last + 1) == Span(first, last) + SCHEDULE[last]
    decreases last - first
  {
    if first < last {
      SpanExtends(first + 1, last);
    }
  }

  /** The window between the first and the ninth attempt. SCHEDULE[0] is not part of it, because the
      worker asks for the delay after having counted the attempt it has just made. */
  lemma FullSpan()
    ensures Span(1, LAST_ATTEMPT) == 253200
    ensures Span(1, LAST_ATTEMPT) > 2 * 24 * HOUR
  {
  }
}
