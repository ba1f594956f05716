/** Who may operate the admin surface: grants that end but are never deleted, and the rule that the
    last admin stays. The first part is the table and what one transaction does to it alone; the second
    is any number of transactions, interleaved at every row lock. */
module AdminUsers {
  import opened Wrappers
  import opened Text

  datatype Role = Admin | Viewer

  datatype Grant = Grant(
    identifier: string, role: Role, note: Option<string>, createdBy: string, endedBy: Option<string>)

  predicate Active(g: Grant) {
    g.endedBy.None?
  }

  predicate ActiveAdmin(g: Grant) {
    Active(g) && g.role.Admin?
  }

  predicate HasAdmin(rows: seq<Grant>) {
    exists i :: 0 <= i < |rows| && ActiveAdmin(rows[i])
  }

  predicate AnyActive(rows: seq<Grant>) {
    exists i :: 0 <= i < |rows| && Active(rows[i])
  }

  /** The unique index: would a new active grant for this identifier collide? */
  predicate Taken(rows: seq<Grant>, identifier: string) {
    exists i :: 0 <= i < |rows| && Active(rows[i]) && Lower(rows[i].identifier) == Lower(identifier)
  }

  predicate Unique(rows: seq<Grant>) {
    forall i, j | 0 <= i < j < |rows| && Active(rows[i]) && Active(rows[j]) ::
      Lower(rows[i].identifier) != Lower(rows[j].identifier)
  }

  function Ended(g: Grant, actor: string): Grant {
    g.(endedBy := Some(actor))
  }

  // --------------------------------------------------- interleaved steps

  datatype Op = End(id: nat) | SetRole(id: nat, role: Role)

  datatype Stage =
    | Begun
    | Targeted(seen: Grant)                                        // the target row is locked
    | Counting(seen: Grant, pending: set<nat>, counted: set<nat>)  // locking the admins, one by one
    | Cleared(seen: Grant, counted: set<nat>)                      // may write and commit
    | Closed(done: bool)                                           // committed, or gone without a trace

  datatype Tx = Tx(op: Op, actor: string, stage: Stage)

  /** `locks` says which transaction holds a row. */
  datatype State = State(rows: seq<Grant>, txs: seq<Tx>, locks: map<nat, nat>)

  datatype Step =
    | Add(identifier: string, role: Role, note: Option<string>, createdBy: string)
    | Begin(op: Op, actor: string)
    | LockTarget(tx: nat)
    | StartCount(tx: nat)
    | LockNext(tx: nat, row: nat)
    | Decide(tx: nat)
    | Commit(tx: nat)
    | Abort(tx: nat)

  predicate MayLock(s: State, tx: nat, row: nat) {
    row in s.locks ==> s.locks[row] == tx
  }

  /** The active admins a counting statement sees when it starts. */
  function Admins(rows: seq<Grant>): set<nat> {
    set i | 0 <= i < |rows| && ActiveAdmin(rows[i])
  }

  /** A grant must be counted before it ends when it is an admin's, and stops being one. */
  predicate NeedsCount(op: Op, seen: Grant) {
    seen.role.Admin? && !(op.SetRole? && op.role.Admin?)
  }

  ghost predicate Enabled(s: State, step: Step) {
    match step
    case Add(_, _, _, _) => true
    case Begin(_, _) => true
    case LockTarget(t) =>
      t < |s.txs| && s.txs[t].stage.Begun? && MayLock(s, t, s.txs[t].op.id)
    case StartCount(t) =>
      t < |s.txs| && s.txs[t].stage.Targeted? && NeedsCount(s.txs[t].op, s.txs[t].stage.seen)
    case LockNext(t, i) =>
      t < |s.txs| && s.txs[t].stage.Counting? && i in s.txs[t].stage.pending && i < |s.rows| && MayLock(s, t, i)
    case Decide(t) =>
      t < |s.txs| && ((s.txs[t].stage.Targeted? && !NeedsCount(s.txs[t].op, s.txs[t].stage.seen))
                      || (s.txs[t].stage.Counting? && s.txs[t].stage.pending == {}))
    case Commit(t) => t < |s.txs| && s.txs[t].stage.Cleared? && s.txs[t].op.id < |s.rows|
    case Abort(t) => t < |s.txs| && !s.txs[t].stage.Closed?
  }

  function Release(locks: map<nat, nat>, tx: nat): map<nat, nat> {
    map i | i in locks && locks[i] != tx :: locks[i]
  }

  function At(s: State, tx: nat, stage: Stage): State
    requires tx < |s.txs|
  {
    s.(txs := s.txs[tx := s.txs[tx].(stage := stage)])
  }

  function Close(s: State, tx: nat, done: bool): State
    requires tx < |s.txs|
  {
    At(s, tx, Closed(done)).(locks := Release(s.locks, tx))
  }

  /** The table after the writes of a cleared transaction, or nothing if they break the unique index. */
  function Written(rows: seq<Grant>, op: Op, seen: Grant, actor: string): Option<seq<Grant>>
    requires op.id < |rows|
  {
    var ended := rows[op.id := Ended(rows[op.id], actor)];
    match op
    case End(_) => Some(ended)
    case SetRole(_, role) =>
      if Taken(ended, seen.identifier) then None
      else Some(ended + [Grant(seen.identifier, role, seen.note, actor, None)])
  }

  ghost function Apply(s: State, step: Step): State
    requires Enabled(s, step)
  {
    match step
    case Add(identifier, role, note, createdBy) =>
      if Taken(s.rows, identifier) then s
      else s.(rows := s.rows + [Grant(identifier, role, note, createdBy, None)])
    case Begin(op, actor) => s.(txs := s.txs + [Tx(op, actor, Begun)])
    case LockTarget(t) =>
      var id := s.txs[t].op.id;
      // The row is read again once the lock is granted: what counts is its latest committed version.
      if id < |s.rows| && Active(s.rows[id])
      then At(s, t, Targeted(s.rows[id])).(locks := s.locks[id := t])
      else Close(s, t, false)
    case StartCount(t) => At(s, t, Counting(s.txs[t].stage.seen, Admins(s.rows), {}))
    case LockNext(t, i) =>
      var stage := s.txs[t].stage;
      var counted := if ActiveAdmin(s.rows[i]) then stage.counted + {i} else stage.counted;
      At(s, t, Counting(stage.seen, stage.pending - {i}, counted)).(locks := s.locks[i := t])
    case Decide(t) =>
      var stage := s.txs[t].stage;
      if stage.Targeted? then
        if s.txs[t].op.SetRole? && s.txs[t].op.role == stage.seen.role then Close(s, t, true)
        else At(s, t, Cleared(stage.seen, {}))
      else if |stage.counted| <= 1 then Close(s, t, false)
      else At(s, t, Cleared(stage.seen, stage.counted))
    case Commit(t) =>
      (match Written(s.rows, s.txs[t].op, s.txs[t].stage.seen, s.txs[t].actor)
       case None => Close(s, t, false)
       case Some(rows) => Close(s, t, true).(rows := rows))
    case Abort(t) => Close(s, t, false)
  }

  ghost predicate Runs(s: State, steps: seq<Step>)
    decreases |steps|
  {
    steps != [] ==> Enabled(s, steps[0]) && Runs(Apply(s, steps[0]), steps[1..])
  }

  ghost function After(s: State, steps: seq<Step>): State
    requires Runs(s, steps)
    decreases |steps|
  {
    if steps == [] then s else After(Apply(s, steps[0]), steps[1..])
  }

  // ---------------------------------------------------------- invariant

  /** A row the transaction has locked and found to be an active admin. */
  predicate Guarded(s: State, t: nat, i: nat) {
    i in s.locks && s.locks[i] == t && i < |s.rows| && ActiveAdmin(s.rows[i])
  }

  /** While a transaction is open its target is as it read it, and everyone it counted is still an
      active admin, because it holds their locks. */
  predicate TxSound(s: State, t: nat)
    requires t < |s.txs|
  {
    var tx := s.txs[t];
    match tx.stage
    case Begun => true
    case Closed(_) => true
    case Targeted(seen) => HoldsTarget(s, t, seen)
    case Counting(seen, _, counted) =>
      HoldsTarget(s, t, seen) && forall i | i in counted :: Guarded(s, t, i)
    case Cleared(seen, counted) =>
      && HoldsTarget(s, t, seen)
      && (forall i | i in counted :: Guarded(s, t, i))
      && (NeedsCount(tx.op, seen) ==> |counted| > 1)
  }

  predicate HoldsTarget(s: State, t: nat, seen: Grant)
    requires t < |s.txs|
  {
    var id := s.txs[t].op.id;
    id in s.locks && s.locks[id] == t && id < |s.rows| && s.rows[id] == seen && Active(seen)
  }

  ghost predicate Sound(s: State) {
    Unique(s.rows) && forall t | 0 <= t < |s.txs| :: TxSound(s, t)
  }

  /** Other transactions notice nothing of a step that leaves their rows and locks alone. */
  lemma OthersUntouched(s: State, s': State, t: nat)
    requires Sound(s) && t < |s.txs| && |s'.txs| == |s.txs|
    requires forall k | 0 <= k < |s.txs| && k != t :: s'.txs[k] == s.txs[k]
    requires forall i | i in s.locks && s.locks[i] != t :: i in s'.locks && s'.locks[i] == s.locks[i]
    requires |s.rows| <= |s'.rows|
    requires forall i | 0 <= i < |s.rows| && !(i in s.locks && s.locks[i] == t) :: s'.rows[i] == s.rows[i]
    ensures forall k | 0 <= k < |s.txs| && k != t :: TxSound(s', k)
  {
    forall k | 0 <= k < |s.txs| && k != t
      ensures TxSound(s', k)
    {
      assert TxSound(s, k);
    }
  }

  lemma AddKeepsSound(s: State, step: Step)
    requires Sound(s) && step.Add?
    ensures Sound(Apply(s, step))
  {
    var s' := Apply(s, step);
    forall t | 0 <= t < |s'.txs|
      ensures TxSound(s', t)
    {
      assert TxSound(s, t);
    }
  }

  lemma CommitKeepsSound(s: State, t: nat)
    requires Sound(s) && Enabled(s, Commit(t))
    ensures Sound(Apply(s, Commit(t)))
  {
    assert TxSound(s, t);
    OthersUntouched(s, Apply(s, Commit(t)), t);
  }

  lemma LockKeepsSound(s: State, step: Step)
    requires Sound(s) && Enabled(s, step) && (step.LockTarget? || step.LockNext?)
    ensures Sound(Apply(s, step))
  {
    assert TxSound(s, step.tx);
    OthersUntouched(s, Apply(s, step), step.tx);
  }

  lemma StepKeepsSound(s: State, step: Step)
    requires Sound(s) && Enabled(s, step)
    ensures Sound(Apply(s, step))
  {
    match step
    case Add(_, _, _, _) => AddKeepsSound(s, step);
    case Begin(_, _) =>
      var s' := Apply(s, step);
      forall t | 0 <= t < |s'.txs|
        ensures TxSound(s', t)
      {
        assert t < |s.txs| ==> TxSound(s, t);
      }
    case LockTarget(t) => LockKeepsSound(s, step);
    case LockNext(t, i) => LockKeepsSound(s, step);
    case Commit(t) => CommitKeepsSound(s, t);
    case StartCount(t) =>
      assert TxSound(s, t);
      OthersUntouched(s, Apply(s, step), t);
    case Decide(t) =>
      assert TxSound(s, t);
      OthersUntouched(s, Apply(s, step), t);
    case Abort(t) =>
      OthersUntouched(s, Apply(s, step), t);
  }

  // ------------------------------------------------------ the last admin

  lemma AnotherIn(s: set<nat>, x: nat) returns (y: nat)
    requires |s| > 1
    ensures y in s && y != x
  {
    var a :| a in s;
    if a != x {
      y := a;
    } else {
      assert |s - {a}| == |s| - 1;
      y :| y in s - {a};
    }
  }

  lemma StepKeepsAdmin(s: State, step: Step)
    requires Sound(s) && Enabled(s, step) && HasAdmin(s.rows)
    ensures HasAdmin(Apply(s, step).rows)
  {
    var admin :| 0 <= admin < |s.rows| && ActiveAdmin(s.rows[admin]);
    var s' := Apply(s, step);
    match step
    case Commit(t) =>
      assert TxSound(s, t);
      var op, stage := s.txs[t].op, s.txs[t].stage;
      if NeedsCount(op, stage.seen) {
        var other := AnotherIn(stage.counted, op.id);
        assert Guarded(s, t, other);
        assert ActiveAdmin(s'.rows[other]);
      } else if admin != op.id {
        assert ActiveAdmin(s'.rows[admin]);
      } else if s'.rows != s.rows {
        assert ActiveAdmin(s'.rows[|s.rows|]);
      }
    case _ => assert ActiveAdmin(s'.rows[admin]);
  }

  lemma {:induction false} RunKeepsAdmin(s: State, steps: seq<Step>)
    requires Sound(s) && Runs(s, steps)
    ensures Sound(After(s, steps)) && (HasAdmin(s.rows) ==> HasAdmin(After(s, steps).rows))
    decreases |steps|
  {
    if steps != [] {
      hide Sound, HasAdmin, Enabled, Apply;
      StepKeepsSound(s, steps[0]);
      if HasAdmin(s.rows) {
        StepKeepsAdmin(s, steps[0]);
      }
      RunKeepsAdmin(Apply(s, steps[0]), steps[1..]);
    }
  }

  const EMPTY := State([], [], map[])

  /** Once there is an active admin there is always one, over every interleaving of any number of
      transactions that add, end or change grants, or give up at any point; and no identifier is ever
      active twice. */
  lemma LastAdminStays(before: seq<Step>, after: seq<Step>, admin: nat)
    requires Runs(EMPTY, before) && Runs(After(EMPTY, before), after)
    requires var rows := After(EMPTY, before).rows;
             admin < |rows| && rows[admin].role == Admin && rows[admin].endedBy.None?
    ensures var rows := After(After(EMPTY, before), after).rows;
            && (exists i :: 0 <= i < |rows| && rows[i].role == Admin && rows[i].endedBy.None?)
            && forall i, j | 0 <= i < j < |rows| && rows[i].endedBy.None? && rows[j].endedBy.None? ::
                 Lower(rows[i].identifier) != Lower(rows[j].identifier)
  {
    var s := After(EMPTY, before);
    RunKeepsAdmin(EMPTY, before);
    assert ActiveAdmin(s.rows[admin]);
    hide Runs, After;
    RunKeepsAdmin(s, after);
    var rows := After(s, after).rows;
    var i :| 0 <= i < |rows| && ActiveAdmin(rows[i]);
    assert rows[i].role == Admin && rows[i].endedBy.None?;
  }

  // ---------------------------------------------------------- bootstrap

  predicate Matches(g: Grant, sub: string, email: Option<string>) {
    Active(g) && (g.identifier == sub || (email.Some? && Lower(g.identifier) == Lower(email.value)))
  }

  /** May the table answer `role` for this identity? The query takes any one of the matching grants. */
  predicate Resolves(rows: seq<Grant>, sub: string, email: Option<string>, role: Option<Role>) {
    match role
    case Some(r) => exists i :: 0 <= i < |rows| && Matches(rows[i], sub, email) && rows[i].role == r
    case None => forall i | 0 <= i < |rows| :: !Matches(rows[i], sub, email)
  }

  /** The role an authenticated identity acts in: the table decides, and the environment's list only
      while the table has no active row at all. */
  function Authorized(role: Option<Role>, anyActive: bool, listed: bool): Option<Role> {
    match role
    case Some(r) => Some(r)
    case None => if !anyActive && listed then Some(Admin) else None
  }

  /** What an identity resolves to: a role if and only if an active grant of that role is for its subject,
      as written, or for its email, in any case; nothing if and only if no active grant is. */
  lemma ResolvesIff(rows: seq<Grant>, sub: string, email: Option<string>, role: Role)
    ensures Resolves(rows, sub, email, Some(role)) <==>
              exists i :: 0 <= i < |rows| && rows[i].endedBy.None? && rows[i].role == role
                          && (rows[i].identifier == sub
                              || (email.Some? && Lower(rows[i].identifier) == Lower(email.value)))
    ensures Resolves(rows, sub, email, None) <==>
              forall i | 0 <= i < |rows| && rows[i].endedBy.None? ::
                rows[i].identifier != sub && (email.Some? ==> Lower(rows[i].identifier) != Lower(email.value))
  {
    assert forall i | 0 <= i < |rows| ::
      Matches(rows[i], sub, email) <==>
        rows[i].endedBy.None?
        && (rows[i].identifier == sub || (email.Some? && Lower(rows[i].identifier) == Lower(email.value)));
  }

  /** Whoever acts as an admin has an active admin grant for the subject or the email, or is on the
      environment's list while no grant at all is active. */
  lemma AdminsAreGranted(rows: seq<Grant>, sub: string, email: Option<string>, role: Option<Role>, listed: bool)
    requires Resolves(rows, sub, email, role)
    requires Authorized(role, AnyActive(rows), listed) == Some(Admin)
    ensures (exists i :: 0 <= i < |rows| && rows[i].endedBy.None? && rows[i].role == Admin
                         && (rows[i].identifier == sub
                             || (email.Some? && Lower(rows[i].identifier) == Lower(email.value))))
            || (listed && forall i | 0 <= i < |rows| :: rows[i].endedBy.Some?)
  {
    ResolvesIff(rows, sub, email, Admin);
    if role.None? {
      assert forall i | 0 <= i < |rows| :: !Active(rows[i]);
    }
  }

  /** An active grant always lets its identity in. */
  lemma GrantedAreIn(rows: seq<Grant>, i: nat, sub: string, email: Option<string>, role: Option<Role>, listed: bool)
    requires i < |rows| && rows[i].endedBy.None? && Resolves(rows, sub, email, role)
    requires rows[i].identifier == sub || (email.Some? && Lower(rows[i].identifier) == Lower(email.value))
    ensures Authorized(role, AnyActive(rows), listed).Some?
    ensures (forall j | 0 <= j < |rows| && rows[j].endedBy.None? :: rows[j].role == rows[i].role) ==>
              Authorized(role, AnyActive(rows), listed) == Some(rows[i].role)
  {
    assert Matches(rows[i], sub, email);
  }

  /** After the first admin the environment's list is inert for ever: nobody gets in but by an active
      grant, and with the role it gives. */
  lemma BootstrapStaysClosed(
    before: seq<Step>, after: seq<Step>, admin: nat, sub: string, email: Option<string>, role: Option<Role>,
    listed: bool)
    requires Runs(EMPTY, before) && Runs(After(EMPTY, before), after)
    requires var rows := After(EMPTY, before).rows;
             admin < |rows| && rows[admin].role == Admin && rows[admin].endedBy.None?
    requires Resolves(After(After(EMPTY, before), after).rows, sub, email, role)
    ensures var rows := After(After(EMPTY, before), after).rows;
            && Authorized(role, AnyActive(rows), listed) == role
            && (role.Some? <==>
                  exists i :: 0 <= i < |rows| && rows[i].endedBy.None?
                              && (rows[i].identifier == sub
                                  || (email.Some? && Lower(rows[i].identifier) == Lower(email.value))))
            && (role == Some(Admin) ==>
                  exists i :: 0 <= i < |rows| && rows[i].endedBy.None? && rows[i].role == Admin
                              && (rows[i].identifier == sub
                                  || (email.Some? && Lower(rows[i].identifier) == Lower(email.value))))
  {
    LastAdminStays(before, after, admin);
    var rows := After(After(EMPTY, before), after).rows;
    hide Runs, After;
    var i :| 0 <= i < |rows| && rows[i].role == Admin && rows[i].endedBy.None?;
    assert Active(rows[i]);
    ResolvesIff(rows, sub, email, Admin);
    ResolvesIff(rows, sub, email, Viewer);
  }

  /** The first row closes the bootstrap window for good only if it is an admin's. A commit leaves no
      active grant if and only if it ends the only one, and that is a viewer's: the rule about the last
      row of the table is a rule about admins. */
  lemma CommitReopensBootstrap(s: State, t: nat)
    requires Sound(s) && Enabled(s, Commit(t))
    ensures var op, rows := s.txs[t].op, Apply(s, Commit(t)).rows;
            (forall i | 0 <= i < |rows| :: rows[i].endedBy.Some?) <==>
              && op.End? && s.rows[op.id].role == Viewer
              && forall i | 0 <= i < |s.rows| && i != op.id :: s.rows[i].endedBy.Some?
  {
    var s' := Apply(s, Commit(t));
    assert TxSound(s, t);
    var op, stage := s.txs[t].op, s.txs[t].stage;
    if op.SetRole? {
      if s'.rows == s.rows {
        assert Active(s'.rows[op.id]);
      } else {
        assert Active(s'.rows[|s.rows|]);
      }
    } else if NeedsCount(op, stage.seen) {
      var other := AnotherIn(stage.counted, op.id);
      assert Guarded(s, t, other);
      assert Active(s'.rows[other]);
    } else if i :| 0 <= i < |s.rows| && Active(s.rows[i]) && i != op.id {
      assert Active(s'.rows[i]);
    }
  }

  /** The failing side: a viewer is granted access to an empty table and then ended, and the
      environment's list makes admins again. */
  lemma ViewerReopensBootstrap(identifier: string, actor: string) returns (steps: seq<Step>)
    ensures Runs(EMPTY, steps)
    ensures var rows := After(EMPTY, steps).rows;
            && |rows| == 1 && rows[0].endedBy.Some?
            && (forall sub, email :: Resolves(rows, sub, email, None))
            && Authorized(None, AnyActive(rows), true) == Some(Admin)
  {
    hide Unique, Lower;
    steps := [Add(identifier, Viewer, None, actor), Begin(End(0), actor), LockTarget(0), Decide(0), Commit(0)];
    var viewer := Grant(identifier, Viewer, None, actor, None);
    var s1 := EMPTY.(rows := [viewer]);
    var s2 := s1.(txs := [Tx(End(0), actor, Begun)]);
    var s3 := State([viewer], [Tx(End(0), actor, Targeted(viewer))], map[0 := 0]);
    var s4 := s3.(txs := [Tx(End(0), actor, Cleared(viewer, {}))]);
    var s5 := State([Ended(viewer, actor)], [Tx(End(0), actor, Closed(true))], map[]);
    assert Apply(EMPTY, steps[0]) == s1;
    assert Apply(s1, steps[1]) == s2;
    assert Apply(s2, steps[2]) == s3;
    assert Apply(s3, steps[3]) == s4;
    assert Enabled(s4, steps[4]) && Apply(s4, steps[4]) == s5;
    hide Enabled, Apply, Runs, After;
    FiveSteps(steps, EMPTY, s1, s2, s3, s4, s5);
  }

  lemma FiveSteps(steps: seq<Step>, s0: State, s1: State, s2: State, s3: State, s4: State, s5: State)
    requires |steps| == 5
    requires Enabled(s0, steps[0]) && Apply(s0, steps[0]) == s1 && Enabled(s1, steps[1]) && Apply(s1, steps[1]) == s2
    requires Enabled(s2, steps[2]) && Apply(s2, steps[2]) == s3 && Enabled(s3, steps[3]) && Apply(s3, steps[3]) == s4
    requires Enabled(s4, steps[4]) && Apply(s4, steps[4]) == s5
    ensures Runs(s0, steps) && After(s0, steps) == s5
  {
    hide Enabled, Apply;
    assert Runs(s4, steps[4..]) && After(s4, steps[4..]) == s5;
    assert Runs(s3, steps[3..]) && After(s3, steps[3..]) == s5;
    assert Runs(s2, steps[2..]) && After(s2, steps[2..]) == s5;
    assert Runs(s1, steps[1..]) && After(s1, steps[1..]) == s5;
  }

  // ------------------------------------------- one transaction by itself

  lemma {:induction false} RunsOn(s: State, first: seq<Step>, rest: seq<Step>)
    requires Runs(s, first) && Runs(After(s, first), rest)
    ensures Runs(s, first + rest) && After(s, first + rest) == After(After(s, first), rest)
    decreases |first|
  {
    if first == [] {
      assert first + rest == rest;
    } else {
      hide Enabled, Apply;
      RunsOn(Apply(s, first[0]), first[1..], rest);
      assert (first + rest)[1..] == first[1..] + rest;
    }
  }

  lemma OneStep(s: State, step: Step)
    requires Enabled(s, step)
    ensures Runs(s, [step]) && After(s, [step]) == Apply(s, step)
  {
    hide Enabled, Apply;
    assert [step][1..] == [];
  }

  /** Only transaction `t` holds any lock. */
  predicate Alone(s: State, t: nat) {
    t < |s.txs| && forall i | i in s.locks :: s.locks[i] == t
  }

  /** Locking and counting the admins one by one counts them all. */
  lemma {:induction false} CountsAll(s: State, t: nat) returns (steps: seq<Step>)
    requires Alone(s, t) && s.txs[t].stage.Counting?
    requires forall i | i in s.txs[t].stage.pending :: i < |s.rows| && ActiveAdmin(s.rows[i])
    ensures Runs(s, steps)
    ensures var s', stage := After(s, steps), s.txs[t].stage;
            && Alone(s', t) && s'.rows == s.rows && |s'.txs| == |s.txs|
            && s'.txs[t].op == s.txs[t].op && s'.txs[t].actor == s.txs[t].actor
            && s'.txs[t].stage == Counting(stage.seen, {}, stage.counted + stage.pending)
    decreases |s.txs[t].stage.pending|
  {
    var stage := s.txs[t].stage;
    if stage.pending == {} {
      steps := [];
      assert stage.counted + stage.pending == stage.counted;
    } else {
      var i :| i in stage.pending;
      var step := LockNext(t, i);
      var s1 := Apply(s, step);
      assert s1.txs[t].stage.pending == stage.pending - {i};
      assert |stage.pending - {i}| < |stage.pending|;
      var more := CountsAll(s1, t);
      assert stage.counted + {i} + (stage.pending - {i}) == stage.counted + stage.pending;
      OneStep(s, step);
      RunsOn(s, [step], more);
      steps := [step] + more;
    }
  }

  predicate OthersAreAdmins(rows: seq<Grant>, id: nat) {
    exists i :: 0 <= i < |rows| && i != id && rows[i].role == Admin && rows[i].endedBy.None?
  }

  /** What deciding comes to for transaction `t` in `s`, when nothing else moves. */
  predicate Decided(s: State, t: nat, s': State)
    requires t < |s.txs| && s.txs[t].stage.Targeted?
  {
    && |s'.txs| == |s.txs| && s'.rows == s.rows
    && s'.txs[t].op == s.txs[t].op && s'.txs[t].actor == s.txs[t].actor
    && var op, seen := s.txs[t].op, s.txs[t].stage.seen;
       if NeedsCount(op, seen) && !OthersAreAdmins(s.rows, op.id) then s'.txs[t].stage == Closed(false)
       else if op.SetRole? && op.role == seen.role then s'.txs[t].stage == Closed(true)
       else s'.txs[t].stage.Cleared? && s'.txs[t].stage.seen == seen
  }

  lemma CountDecides(s: State, t: nat, s2: State)
    requires t < |s.txs| && s.txs[t].stage.Targeted? && HoldsTarget(s, t, s.txs[t].stage.seen)
    requires NeedsCount(s.txs[t].op, s.txs[t].stage.seen)
    requires |s2.txs| == |s.txs| && s2.rows == s.rows
    requires s2.txs[t] == s.txs[t].(stage := Counting(s.txs[t].stage.seen, {}, Admins(s.rows)))
    ensures Enabled(s2, Decide(t)) && Decided(s, t, Apply(s2, Decide(t)))
  {
    OnlyAdmin(s.rows, s.txs[t].op.id);
  }

  /** The steps from a locked target to a decision. */
  lemma DecidesAlone(s: State, t: nat) returns (steps: seq<Step>)
    requires Alone(s, t) && s.txs[t].stage.Targeted? && HoldsTarget(s, t, s.txs[t].stage.seen)
    ensures Runs(s, steps) && Decided(s, t, After(s, steps))
  {
    var op, seen := s.txs[t].op, s.txs[t].stage.seen;
    if NeedsCount(op, seen) {
      OneStep(s, StartCount(t));
      var s1 := Apply(s, StartCount(t));
      var counting := CountsAll(s1, t);
      var s2 := After(s1, counting);
      assert {} + Admins(s.rows) == Admins(s.rows);
      assert s2.txs[t] == s.txs[t].(stage := Counting(seen, {}, Admins(s.rows)));
      CountDecides(s, t, s2);
      hide Enabled, Apply, Runs, After, Decided;
      OneStep(s2, Decide(t));
      RunsOn(s1, counting, [Decide(t)]);
      RunsOn(s, [StartCount(t)], counting + [Decide(t)]);
      steps := [StartCount(t)] + (counting + [Decide(t)]);
    } else {
      OneStep(s, Decide(t));
      steps := [Decide(t)];
    }
  }

  /** What a cleared transaction writes: the old grant ended, and for a change of role a new one like it. */
  lemma CommitWrites(s: State, t: nat)
    requires Sound(s) && Enabled(s, Commit(t))
    ensures var tx, s' := s.txs[t], Apply(s, Commit(t));
            var id := tx.op.id;
            var was := s.rows[id];
            var ended := s.rows[id := was.(endedBy := Some(tx.actor))];
            && s'.txs[t].stage == Closed(true)
            && s'.rows == match tx.op
                          case End(_) => ended
                          case SetRole(_, role) => ended + [Grant(was.identifier, role, was.note, tx.actor, None)]
  {
    assert TxSound(s, t);
  }

  /** By itself a transaction does what the table's methods below do: a missing or ended grant is left
      alone, the last admin is refused, an unchanged role changes nothing, and otherwise the grant ends
      and, for a change of role, a new one like it begins. */
  lemma TransactionAlone(s: State, op: Op, actor: string) returns (steps: seq<Step>)
    requires Sound(s) && s.locks == map[]
    ensures Runs(s, steps)
    ensures var rows, id := s.rows, op.id;
            After(s, steps).rows ==
              if !(id < |rows| && rows[id].endedBy.None?) then rows
              else if rows[id].role == Admin && (op.End? || op.role == Viewer) && !OthersAreAdmins(rows, id) then rows
              else
                var ended := rows[id := rows[id].(endedBy := Some(actor))];
                match op
                case End(_) => ended
                case SetRole(_, role) =>
                  if role == rows[id].role then rows
                  else ended + [Grant(rows[id].identifier, role, rows[id].note, actor, None)]
  {
    var t := |s.txs|;
    var s1 := Apply(s, Begin(op, actor));
    OneStep(s, Begin(op, actor));
    OneStep(s1, LockTarget(t));
    var s2 := Apply(s1, LockTarget(t));
    StepKeepsSound(s, Begin(op, actor));
    StepKeepsSound(s1, LockTarget(t));
    RunsOn(s, [Begin(op, actor)], [LockTarget(t)]);
    steps := [Begin(op, actor)] + [LockTarget(t)];
    if op.id < |s.rows| && s.rows[op.id].endedBy.None? {
      assert TxSound(s2, t);
      var more := FinishesAlone(s2, t);
      RunsOn(s, steps, more);
      steps := steps + more;
    }
  }

  lemma FinishesAlone(s: State, t: nat) returns (steps: seq<Step>)
    requires Sound(s) && Alone(s, t) && s.txs[t].stage.Targeted? && HoldsTarget(s, t, s.txs[t].stage.seen)
    ensures Runs(s, steps)
    ensures var rows, tx := s.rows, s.txs[t];
            var id, op := tx.op.id, tx.op;
            After(s, steps).rows ==
              if rows[id].role == Admin && (op.End? || op.role == Viewer) && !OthersAreAdmins(rows, id) then rows
              else
                var ended := rows[id := rows[id].(endedBy := Some(tx.actor))];
                match op
                case End(_) => ended
                case SetRole(_, role) =>
                  if role == rows[id].role then rows
                  else ended + [Grant(rows[id].identifier, role, rows[id].note, tx.actor, None)]
  {
    steps := DecidesAlone(s, t);
    var s1 := After(s, steps);
    RunKeepsAdmin(s, steps);
    if s1.txs[t].stage.Cleared? {
      assert TxSound(s1, t);
      CommitWrites(s1, t);
      OneStep(s1, Commit(t));
      RunsOn(s, steps, [Commit(t)]);
      steps := steps + [Commit(t)];
    }
  }

  // -------------------------------------------------- the table's methods

  datatype Result = Done | NotFound | Refused

  /** The transactions as the program runs them, here with nobody else in the way. */
  class Table {
    var rows: seq<Grant>

    constructor ()
      ensures rows == []
    {
      rows := [];
    }

    method Add(identifier: string, role: Role, note: Option<string>, createdBy: string) returns (r: Result)
      modifies this
      ensures r == if exists i :: 0 <= i < |old(rows)| && old(rows)[i].endedBy.None?
                                  && Lower(old(rows)[i].identifier) == Lower(identifier)
                   then Refused else Done
      ensures rows == if r.Done? then old(rows) + [Grant(identifier, role, note, createdBy, None)] else old(rows)
      ensures old(Unique(rows)) ==> Unique(rows)
    {
      TakenIff(rows, identifier);
      if Taken(rows, identifier) {
        return Refused;
      }
      rows := rows + [Grant(identifier, role, note, createdBy, None)];
      r := Done;
    }

    method CountAdmins() returns (n: nat)
      ensures n == |Admins(rows)|
    {
      n := |Admins(rows)|;
    }

    method End(id: nat, endedBy: string) returns (r: Result)
      modifies this
      ensures r.NotFound? <==> !(id < |old(rows)| && old(rows)[id].endedBy.None?)
      ensures r.Refused? <==>
                && id < |old(rows)| && old(rows)[id].endedBy.None? && old(rows)[id].role == Admin
                && forall i | 0 <= i < |old(rows)| && i != id ::
                     old(rows)[i].role == Admin ==> old(rows)[i].endedBy.Some?
      ensures rows == if r.Done? then old(rows)[id := old(rows)[id].(endedBy := Some(endedBy))] else old(rows)
      ensures old(HasAdmin(rows)) ==> HasAdmin(rows)
    {
      if !(id < |rows| && Active(rows[id])) {
        return NotFound;
      }
      if rows[id].role == Admin {
        OnlyAdmin(rows, id);
        var admins := CountAdmins();
        if admins <= 1 {
          return Refused;
        }
        ghost var other := AnotherIn(Admins(rows), id);
        rows := rows[id := Ended(rows[id], endedBy)];
        assert ActiveAdmin(rows[other]);
      } else {
        assert id !in Admins(rows);
        rows := rows[id := Ended(rows[id], endedBy)];
        assert forall i | 0 <= i < |rows| :: ActiveAdmin(old(rows)[i]) ==> ActiveAdmin(rows[i]);
      }
      r := Done;
    }

    method SetRole(id: nat, role: Role, actor: string) returns (r: Result)
      requires Unique(rows)
      modifies this
      ensures r.NotFound? <==> !(id < |old(rows)| && old(rows)[id].endedBy.None?)
      ensures r.Refused? <==>
                && id < |old(rows)| && old(rows)[id].endedBy.None? && old(rows)[id].role == Admin && role == Viewer
                && forall i | 0 <= i < |old(rows)| && i != id ::
                     old(rows)[i].role == Admin ==> old(rows)[i].endedBy.Some?
      ensures !r.Done? || old(rows)[id].role == role ==> rows == old(rows)
      ensures r.Done? && old(rows)[id].role != role ==>
                rows == old(rows)[id := old(rows)[id].(endedBy := Some(actor))]
                        + [Grant(old(rows)[id].identifier, role, old(rows)[id].note, actor, None)]
      ensures Unique(rows) && (old(HasAdmin(rows)) ==> HasAdmin(rows))
    {
      if !(id < |rows| && Active(rows[id])) {
        return NotFound;
      }
      var target := rows[id];
      if target.role == role {
        return Done;
      }
      ghost var survivor := id;
      if target.role == Admin {
        OnlyAdmin(rows, id);
        var admins := CountAdmins();
        if admins <= 1 {
          return Refused;
        }
        survivor := AnotherIn(Admins(rows), id);
      }
      rows := rows[id := Ended(target, actor)] + [Grant(target.identifier, role, target.note, actor, None)];
      assert target.role == Admin ==> ActiveAdmin(rows[survivor]);
      assert target.role == Viewer ==> ActiveAdmin(rows[|old(rows)|]);
      r := Done;
    }
  }

  lemma TakenIff(rows: seq<Grant>, identifier: string)
    ensures Taken(rows, identifier) <==>
              exists i :: 0 <= i < |rows| && rows[i].endedBy.None? && Lower(rows[i].identifier) == Lower(identifier)
  {
    if Taken(rows, identifier) {
      var i :| 0 <= i < |rows| && Active(rows[i]) && Lower(rows[i].identifier) == Lower(identifier);
      assert rows[i].endedBy.None?;
    }
    assert forall i | 0 <= i < |rows| :: rows[i].endedBy.None? <==> Active(rows[i]);
  }

  /** The rule counts the active admins: it is about `id` alone exactly if nobody else is one. */
  lemma OnlyAdmin(rows: seq<Grant>, id: nat)
    requires id < |rows| && ActiveAdmin(rows[id])
    ensures |Admins(rows)| <= 1 <==>
              forall i | 0 <= i < |rows| && i != id :: rows[i].role == Admin ==> rows[i].endedBy.Some?
  {
    assert id in Admins(rows);
    if |Admins(rows)| <= 1 {
      OneElement(Admins(rows), id);
      forall i | 0 <= i < |rows| && i != id && rows[i].role == Admin ensures rows[i].endedBy.Some? {
        assert i !in Admins(rows);
      }
    } else {
      var other := AnotherIn(Admins(rows), id);
      assert rows[other].role == Admin && rows[other].endedBy.None?;
    }
  }

  lemma OneElement(s: set<nat>, x: nat)
    requires x in s && |s| <= 1
    ensures s == {x}
  {
    assert |s - {x}| == |s| - 1;
  }
}
