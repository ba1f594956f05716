/** Which domains each tenant may send as, and the log that says how that came to be. */
module TenantDomains {
  type Domains = seq<string>

  datatype Change = Change(tenant: nat, actor: string, before: Domains, after: Domains)

  /** A transaction that has locked its tenant's row and read the list there. */
  datatype Edit = Edit(tenant: nat, actor: string, before: Domains, after: Domains)

  /** The committed rows, tenants by number, and the transactions under way. */
  datatype State = State(live: seq<Domains>, log: seq<Change>, edits: map<nat, Edit>)

  const EMPTY := State([], [], map[])

  datatype Step =
    | Create(domains: Domains, actor: string)
    | Open(txn: nat, tenant: nat, after: Domains, actor: string)
    | Commit(txn: nat)
    | Abort(txn: nat)

  /** A locked row cannot be locked again before its transaction is over. */
  predicate Locked(s: State, tenant: nat) {
    exists txn :: txn in s.edits && s.edits[txn].tenant == tenant
  }

  predicate Enabled(s: State, step: Step) {
    match step
    case Create(_, _) => true
    case Open(txn, tenant, _, _) => txn !in s.edits && tenant < |s.live| && !Locked(s, tenant)
    case Commit(txn) => txn in s.edits && s.edits[txn].tenant < |s.live|
    case Abort(txn) => txn in s.edits
  }

  /** Writing the list and logging the change: nothing at all if the list is as it was read. */
  function Written(s: State, e: Edit): State
    requires e.tenant < |s.live|
  {
    if e.before == e.after then s
    else s.(live := s.live[e.tenant := e.after], log := s.log + [Change(e.tenant, e.actor, e.before, e.after)])
  }

  function Apply(s: State, step: Step): State
    requires Enabled(s, step)
  {
    match step
    case Create(domains, actor) =>
      s.(live := s.live + [domains], log := s.log + [Change(|s.live|, actor, [], domains)])
    case Open(txn, tenant, after, actor) =>
      s.(edits := s.edits[txn := Edit(tenant, actor, s.live[tenant], after)])
    case Commit(txn) =>
      Written(s, s.edits[txn]).(edits := s.edits - {txn})
    case Abort(txn) =>
      s.(edits := s.edits - {txn})
  }

  predicate Runs(s: State, steps: seq<Step>)
    decreases |steps|
  {
    steps == [] || (Enabled(s, steps[0]) && Runs(Apply(s, steps[0]), steps[1..]))
  }

  function After(s: State, steps: seq<Step>): State
    requires Runs(s, steps)
    decreases |steps|
  {
    if steps == [] then s else After(Apply(s, steps[0]), steps[1..])
  }

  // ----------------------------------------------------------- the history

  function HistoryOf(log: seq<Change>, tenant: nat): (h: seq<Change>)
    ensures forall c :: c in h <==> c in log && c.tenant == tenant
  {
    if log == [] then []
    else
      var rest := HistoryOf(log[..|log| - 1], tenant);
      if log[|log| - 1].tenant == tenant then rest + [log[|log| - 1]] else rest
  }

  /** The history starts from nothing, each change from where the one before it left off, nothing but
      the first entry may leave the list as it was, and the last entry is the live list. */
  predicate Replays(h: seq<Change>, live: Domains) {
    && h != [] && h[0].before == [] && h[|h| - 1].after == live
    && forall i | 0 < i < |h| :: h[i].before == h[i - 1].after && h[i].before != h[i].after
  }

  /** One lock to a tenant, and what was read under it is still the live list. */
  predicate LocksHold(s: State) {
    && (forall txn | txn in s.edits ::
          s.edits[txn].tenant < |s.live| && s.edits[txn].before == s.live[s.edits[txn].tenant])
    && forall a, b | a in s.edits && b in s.edits && a != b :: s.edits[a].tenant != s.edits[b].tenant
  }

  predicate OnRecord(s: State) {
    && (forall t | 0 <= t < |s.live| :: Replays(HistoryOf(s.log, t), s.live[t]))
    && forall c | c in s.log :: c.tenant < |s.live|
  }

  lemma OneMore(log: seq<Change>, c: Change, tenant: nat)
    ensures HistoryOf(log + [c], tenant) == HistoryOf(log, tenant) + if c.tenant == tenant then [c] else []
  {
  }

  lemma {:induction false} NoHistory(log: seq<Change>, tenant: nat)
    requires forall c | c in log :: c.tenant != tenant
    ensures HistoryOf(log, tenant) == []
  {
    if log != [] {
      NoHistory(log[..|log| - 1], tenant);
    }
  }

  lemma NextChange(h: seq<Change>, live: Domains, c: Change)
    requires Replays(h, live) && c.before == live && c.before != c.after
    ensures Replays(h + [c], c.after)
  {
  }

  lemma NewTenantOnRecord(s: State, domains: Domains, actor: string)
    requires OnRecord(s)
    ensures OnRecord(Apply(s, Create(domains, actor)))
  {
  }

  lemma WrittenOnRecord(s: State, e: Edit)
    requires OnRecord(s) && e.tenant < |s.live| && e.before == s.live[e.tenant]
    ensures OnRecord(Written(s, e))
  {
    var s' := Written(s, e);
    if e.before != e.after {
      var c := Change(e.tenant, e.actor, e.before, e.after);
      hide Replays, HistoryOf;
      forall t | 0 <= t < |s'.live| ensures Replays(HistoryOf(s'.log, t), s'.live[t]) {
        OneMore(s.log, c, t);
        if t == e.tenant {
          NextChange(HistoryOf(s.log, t), s.live[t], c);
        }
      }
    }
  }

  lemma StepKeepsRecord(s: State, step: Step)
    requires LocksHold(s) && OnRecord(s) && Enabled(s, step)
    ensures LocksHold(Apply(s, step)) && OnRecord(Apply(s, step))
    ensures s.log <= Apply(s, step).log && |s.live| <= |Apply(s, step).live|
  {
    hide Replays, HistoryOf;
    match step
    case Create(domains, actor) => NewTenantOnRecord(s, domains, actor);
    case Open(txn, tenant, after, actor) =>
    case Commit(txn) => WrittenOnRecord(s, s.edits[txn]);
    case Abort(txn) =>
  }

  lemma {:induction false} RunKeepsRecord(s: State, steps: seq<Step>)
    requires LocksHold(s) && OnRecord(s) && Runs(s, steps)
    ensures LocksHold(After(s, steps)) && OnRecord(After(s, steps))
    ensures s.log <= After(s, steps).log && |s.live| <= |After(s, steps).live|
    decreases |steps|
  {
    if steps != [] {
      hide LocksHold, OnRecord, Apply, Enabled;
      StepKeepsRecord(s, steps[0]);
      RunKeepsRecord(Apply(s, steps[0]), steps[1..]);
    }
  }

  /** In every run, however its transactions overlap, each tenant's history starts from nothing, each
      entry from where the one before it left off, none but the first changes nothing, and it ends at the
      tenant's live list. */
  lemma LogReplaysToLive(steps: seq<Step>, tenant: nat)
    requires Runs(EMPTY, steps) && tenant < |After(EMPTY, steps).live|
    ensures var s := After(EMPTY, steps);
            var h := HistoryOf(s.log, tenant);
            && h != [] && h[0].before == [] && h[|h| - 1].after == s.live[tenant]
            && forall i | 0 < i < |h| :: h[i].before == h[i - 1].after && h[i].before != h[i].after
  {
    RunKeepsRecord(EMPTY, steps);
    hide Runs, After, HistoryOf;
    var s := After(EMPTY, steps);
    assert Replays(HistoryOf(s.log, tenant), s.live[tenant]);
  }

  /** What a tenant could send as at any earlier point of a run can be read off the log as it is now: it is
      where the last entry made for it by then leaves off. */
  lemma EarlierListIsOnRecord(before: seq<Step>, after: seq<Step>, tenant: nat)
    requires Runs(EMPTY, before) && Runs(After(EMPTY, before), after)
    requires tenant < |After(EMPTY, before).live|
    ensures var earlier, now := After(EMPTY, before), After(After(EMPTY, before), after);
            && |earlier.log| <= |now.log|
            && var h := HistoryOf(now.log[..|earlier.log|], tenant);
               h != [] && h[|h| - 1].after == earlier.live[tenant]
  {
    RunKeepsRecord(EMPTY, before);
    var earlier := After(EMPTY, before);
    assert Replays(HistoryOf(earlier.log, tenant), earlier.live[tenant]);
    hide LocksHold, HistoryOf, Runs, After, OnRecord;
    RunKeepsRecord(earlier, after);
    assert After(earlier, after).log[..|earlier.log|] == earlier.log;
  }

  // ------------------------------------------------------------- the table

  class Tenants {
    var live: seq<Domains>
    var log: seq<Change>

    ghost function Committed(): State
      reads this
    {
      State(live, log, map[])
    }

    constructor ()
      ensures Committed() == EMPTY
    {
      live, log := [], [];
    }

    method Add(domains: Domains, actor: string) returns (id: nat)
      modifies this
      ensures id == |old(live)| && live == old(live) + [domains] && log == old(log) + [Change(id, actor, [], domains)]
      ensures Committed() == Apply(old(Committed()), Create(domains, actor))
    {
      id := |live|;
      live := live + [domains];
      log := log + [Change(id, actor, [], domains)];
    }

    /** A whole transaction with nothing beside it. */
    method SetDomains(id: nat, domains: Domains, actor: string) returns (found: bool)
      modifies this
      ensures found == (id < |old(live)|)
      ensures !found ==> Committed() == old(Committed())
      ensures found ==> live == old(live)[id := domains]
      ensures found ==> log == if old(live)[id] == domains then old(log)
                               else old(log) + [Change(id, actor, old(live)[id], domains)]
      ensures found ==> forall txn ::
                var run := [Open(txn, id, domains, actor), Commit(txn)];
                Runs(old(Committed()), run) && Committed() == After(old(Committed()), run)
    {
      ghost var s := Committed();
      if id >= |live| { return false; }
      var before := live[id];
      forall txn: nat {
        Alone(s, txn, id, domains, actor);
      }
      if before == domains { return true; }
      live := live[id := domains];
      log := log + [Change(id, actor, before, domains)];
      return true;
    }
  }

  lemma Alone(s: State, txn: nat, tenant: nat, domains: Domains, actor: string)
    requires s.edits == map[] && tenant < |s.live|
    ensures var run := [Open(txn, tenant, domains, actor), Commit(txn)];
            Runs(s, run) && After(s, run) == Written(s, Edit(tenant, actor, s.live[tenant], domains))
  {
    var run := [Open(txn, tenant, domains, actor), Commit(txn)];
    var reading := Apply(s, run[0]);
    assert run[1..] == [Commit(txn)] && run[1..][1..] == [];
    assert reading.edits - {txn} == map[];
    assert Enabled(reading, run[1..][0]);
    assert After(reading, run[1..]) == Apply(reading, Commit(txn));
  }
}
