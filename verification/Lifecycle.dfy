/** The artisan lifecycle: one compare-and-set per transition, a second guarded update of the
    administrative status, any number of requests interleaved, and the schema migration. */
module Lifecycle {
  import opened Wrappers

  datatype State = APPLIED | APPROVED | WALLET_PROVISIONED | DID_ISSUED | ACTIVE | SUSPENDED | REVOKED | REJECTED

  /** `ARTISAN_LIFECYCLE_TRANSITIONS`. */
  function Successors(s: State): set<State> {
    match s
    case APPLIED => {APPROVED, REJECTED}
    case APPROVED => {WALLET_PROVISIONED}
    case WALLET_PROVISIONED => {DID_ISSUED}
    case DID_ISSUED => {ACTIVE}
    case ACTIVE => {SUSPENDED, REVOKED}
    case SUSPENDED => {ACTIVE, REVOKED}
    case REVOKED => {}
    case REJECTED => {}
  }

  /** The columns of an artisan row that matter; a legacy row may have no lifecycle state. */
  datatype Row = Row(state: Option<State>, status: string)

  const PENDING := "pending"
  const STATUS_APPROVED := "approved"
  const STATUS_REJECTED := "rejected"

  type Table = map<string, Row>

  // ------------------------------------------------------------ the three writes

  /** `UPDATE ... SET lifecycle_state WHERE artisan_id AND lifecycle_state = expected`. */
  predicate CasApplies(t: Table, id: string, expected: State) {
    id in t && t[id].state == Some(expected)
  }

  function Cas(t: Table, id: string, expected: State, next: State): Table {
    if CasApplies(t, id, expected) then t[id := t[id].(state := Some(next))] else t
  }

  /** The status update that follows, guarded by the state the request moved to. */
  function SetStatus(t: Table, id: string, guard: State, status: string): Table {
    if id in t && t[id].state == Some(guard) then t[id := t[id].(status := status)] else t
  }

  function MapStatus(r: Row, status: string, state: State): Row {
    if r.state == Some(APPLIED) && r.status == status then r.(state := Some(state)) else r
  }

  function FillState(r: Row): Row {
    if r.state == None then r.(state := Some(APPLIED)) else r
  }

  function MigrateRow(r: Row): Row {
    FillState(MapStatus(MapStatus(r, STATUS_APPROVED, APPROVED), STATUS_REJECTED, REJECTED))
  }

  function Migrate(t: Table): Table {
    map id | id in t :: MigrateRow(t[id])
  }

  datatype TransitionError = InvalidTransition

  /** The artisans table and the operations the application runs on it. */
  class ArtisanTable {
    var rows: Table

    constructor ()
      ensures rows == map[]
    {
      rows := map[];
    }

    /** `register_artisan` with a fresh id. */
    method Register(id: string) returns (inserted: bool)
      modifies this
      ensures inserted <==> id !in old(rows)
      ensures rows == if inserted then old(rows)[id := Row(Some(APPLIED), PENDING)] else old(rows)
    {
      inserted := id !in rows;
      if inserted {
        rows := rows[id := Row(Some(APPLIED), PENDING)];
      }
    }

    method Transition(id: string, expected: State, next: State) returns (done: Result<bool, TransitionError>)
      modifies this
      ensures done.Err? <==> next !in Successors(expected)
      ensures done.Ok? ==> (done.value <==> CasApplies(old(rows), id, expected))
      ensures rows == if done.Ok? then Cas(old(rows), id, expected, next) else old(rows)
    {
      if next !in Successors(expected) {
        return Err(InvalidTransition);
      }
      if id in rows && rows[id].state == Some(expected) {
        rows := rows[id := rows[id].(state := Some(next))];
        return Ok(true);
      }
      return Ok(false);
    }

    /** `admin_approve_artisan` and `admin_reject_artisan` when nothing runs in between: the request
        wins exactly on an APPLIED row, and then state and status are written together. */
    method Decide(id: string, approve: bool) returns (won: bool)
      modifies this
      ensures won <==> CasApplies(old(rows), id, APPLIED)
      ensures rows == if won then old(rows)[id := if approve then Row(Some(APPROVED), STATUS_APPROVED)
                                                  else Row(Some(REJECTED), STATUS_REJECTED)]
                      else old(rows)
    {
      if id !in rows {
        return false;
      }
      if approve && rows[id].state != Some(APPLIED) {
        return false;
      }
      var target := if approve then APPROVED else REJECTED;
      var done := Transition(id, APPLIED, target);
      if done.Err? || !done.value {
        return false;
      }
      if rows[id].state == Some(target) {
        rows := rows[id := rows[id].(status := if approve then STATUS_APPROVED else STATUS_REJECTED)];
      }
      return true;
    }

    /** The lifecycle part of `run_migrations`: three updates in order over all rows. */
    method RunMigration()
      modifies this
      ensures rows == Migrate(old(rows))
      ensures forall id :: id in rows ==> rows[id].state.Some?
    {
      rows := map id | id in rows :: MapStatus(rows[id], STATUS_APPROVED, APPROVED);
      rows := map id | id in rows :: MapStatus(rows[id], STATUS_REJECTED, REJECTED);
      rows := map id | id in rows :: FillState(rows[id]);
    }
  }

  // ------------------------------------------------------------ interleaved requests

  /** An approve or reject request between its database calls; `seen` is what it read. */
  datatype Request =
    | Read(id: string, approve: bool, seen: Option<State>)
    | Won(id: string, approve: bool)

  /** The table, the running requests, and the states each artisan has been in. */
  datatype Sys = Sys(table: Table, requests: map<nat, Request>, history: map<string, seq<State>>)

  datatype Step =
    | Register(id: string)
    | Start(request: nat, id: string, approve: bool)
    | Decide(request: nat)
    | Finish(request: nat)
    | Move(id: string, expected: State, next: State)
    | RunMigrations
    | Stop(request: nat)

  function Target(approve: bool): State {
    if approve then APPROVED else REJECTED
  }

  function StatusFor(approve: bool): string {
    if approve then STATUS_APPROVED else STATUS_REJECTED
  }

  function Log(s: Sys, id: string, expected: State, next: State): Sys {
    if CasApplies(s.table, id, expected) then
      s.(table := Cas(s.table, id, expected, next),
         history := s.history[id := (if id in s.history then s.history[id] else []) + [next]])
    else s
  }

  function Apply(s: Sys, step: Step): Sys {
    match step
    case Register(id) =>
      if id in s.table then s
      else s.(table := s.table[id := Row(Some(APPLIED), PENDING)], history := s.history[id := [APPLIED]])
    case Start(q, id, approve) =>
      if q in s.requests || id !in s.table then s
      else s.(requests := s.requests[q := Read(id, approve, s.table[id].state)])
    case Decide(q) =>
      if q !in s.requests || !s.requests[q].Read? then s
      else
        var r := s.requests[q];
        // only the approving request looks at what it read before it tries
        if (r.approve && r.seen != Some(APPLIED)) || !CasApplies(s.table, r.id, APPLIED) then s.(requests := s.requests - {q})
        else Log(s, r.id, APPLIED, Target(r.approve)).(requests := s.requests[q := Won(r.id, r.approve)])
    case Finish(q) =>
      if q !in s.requests || !s.requests[q].Won? then s
      else
        var r := s.requests[q];
        s.(table := SetStatus(s.table, r.id, Target(r.approve), StatusFor(r.approve)), requests := s.requests - {q})
    case Move(id, expected, next) =>
      if next !in Successors(expected) then s else Log(s, id, expected, next)
    case RunMigrations => s.(table := Migrate(s.table))
    case Stop(q) => s.(requests := s.requests - {q})
  }

  function Run(s: Sys, steps: seq<Step>): Sys
    decreases |steps|
  {
    if steps == [] then s else Run(Apply(s, steps[0]), steps[1..])
  }

  const INIT := Sys(map[], map[], map[])

  // ------------------------------------------------------------ invariant

  /** A path of the transition table that starts with the application. */
  ghost predicate IsPath(h: seq<State>) {
    && h != [] && h[0] == APPLIED
    && forall k :: 0 <= k < |h| - 1 ==> h[k + 1] in Successors(h[k])
  }

  /** The status never runs ahead of the lifecycle. */
  predicate RowOk(r: Row) {
    && r.state.Some?
    && (|| r.status == PENDING
        || (r.status == STATUS_APPROVED && r.state != Some(APPLIED) && r.state != Some(REJECTED))
        || (r.status == STATUS_REJECTED && r.state == Some(REJECTED)))
  }

  ghost predicate SysOk(s: Sys) {
    && s.table.Keys == s.history.Keys
    && (forall id :: id in s.table ==> RowOk(s.table[id]))
    && (forall id :: id in s.table ==> IsPath(s.history[id]) && s.table[id].state == Some(s.history[id][|s.history[id]| - 1]))
  }

  lemma MigrateIsNoOp(r: Row)
    requires RowOk(r)
    ensures MigrateRow(r) == r
  {
  }

  lemma PathGrows(h: seq<State>, next: State)
    requires IsPath(h) && next in Successors(h[|h| - 1])
    ensures IsPath(h + [next])
  {
  }

  lemma LogKeeps(s: Sys, id: string, expected: State, next: State)
    requires SysOk(s) && next in Successors(expected)
    ensures SysOk(Log(s, id, expected, next))
  {
    if CasApplies(s.table, id, expected) {
      PathGrows(s.history[id], next);
    }
  }

  lemma DecideKeeps(s: Sys, q: nat)
    requires SysOk(s)
    ensures SysOk(Apply(s, Decide(q)))
  {
    if q in s.requests {
      LogKeeps(s, s.requests[q].id, APPLIED, Target(s.requests[q].approve));
    }
  }

  lemma MigrateKeeps(s: Sys)
    requires SysOk(s)
    ensures Migrate(s.table) == s.table
  {
    forall id | id in s.table ensures MigrateRow(s.table[id]) == s.table[id] {
      MigrateIsNoOp(s.table[id]);
    }
  }

  lemma RegisterKeeps(s: Sys, id: string)
    requires SysOk(s)
    ensures SysOk(Apply(s, Register(id)))
  {
  }

  lemma StepKeeps(s: Sys, step: Step)
    requires SysOk(s)
    ensures SysOk(Apply(s, step))
  {
    match step {
      case Register(id) => RegisterKeeps(s, id);
      case Decide(q) => DecideKeeps(s, q);
      case Move(id, expected, next) =>
        if next in Successors(expected) {
          LogKeeps(s, id, expected, next);
        }
      case RunMigrations => MigrateKeeps(s);
      case _ =>
    }
  }

  lemma {:induction false} RunKeeps(s: Sys, steps: seq<Step>)
    requires SysOk(s)
    ensures SysOk(Run(s, steps))
    decreases |steps|
  {
    if steps != [] {
      StepKeeps(s, steps[0]);
      RunKeeps(Apply(s, steps[0]), steps[1..]);
    }
  }

  // ------------------------------------------------------------ what paths look like

  /** APPLIED is left once and never entered again; REVOKED and REJECTED are left never. */
  lemma {:induction false} PathShape(h: seq<State>, k: nat)
    requires IsPath(h) && k < |h|
    ensures h[k] == APPLIED <==> k == 0
    ensures h[k] == REVOKED || h[k] == REJECTED ==> k == |h| - 1
    ensures k >= 1 ==> (h[1] == APPROVED || h[1] == REJECTED)
    ensures k >= 2 ==> h[1] == APPROVED && h[2] == WALLET_PROVISIONED
    ensures k >= 3 ==> h[3] == DID_ISSUED
    ensures k >= 4 ==> h[4] == ACTIVE && h[k] in {ACTIVE, SUSPENDED, REVOKED}
  {
    if k > 0 {
      PathShape(h, k - 1);
      assert h[k] in Successors(h[k - 1]);
    }
    if k < |h| - 1 {
      assert h[k + 1] in Successors(h[k]);
    }
  }

  /** Every interleaving of registrations, approvals, rejections, legal transitions and migrations:
      every artisan's history is a path of the table from APPLIED to the stored state; at most one
      transition leaves APPLIED; ACTIVE comes after APPROVED, WALLET_PROVISIONED and DID_ISSUED in this
      order; nothing follows REVOKED or REJECTED; the status agrees with the state. */
  lemma LifecycleIsSafe(steps: seq<Step>, id: string)
    ensures var s := Run(INIT, steps);
            id in s.table ==>
              (&& id in s.history
               && var h, r := s.history[id], s.table[id];
                  && IsPath(h) && r.state == Some(h[|h| - 1])
                  && (forall k :: 0 <= k < |h| ==> (h[k] == APPLIED <==> k == 0))
                  && (forall k :: 0 <= k < |h| && h[k] == ACTIVE ==>
                        k >= 4 && h[..5] == [APPLIED, APPROVED, WALLET_PROVISIONED, DID_ISSUED, ACTIVE])
                  && (forall k :: 0 <= k < |h| && (h[k] == REVOKED || h[k] == REJECTED) ==> k == |h| - 1)
                  && (r.status == STATUS_APPROVED ==> r.state != Some(APPLIED) && r.state != Some(REJECTED))
                  && (r.status == STATUS_REJECTED ==> r.state == Some(REJECTED)))
  {
    RunKeeps(INIT, steps);
    var s := Run(INIT, steps);
    if id in s.table {
      forall k | 0 <= k < |s.history[id]|
        ensures s.history[id][k] == APPLIED <==> k == 0
        ensures s.history[id][k] == ACTIVE ==> k >= 4 && s.history[id][..5] == [APPLIED, APPROVED, WALLET_PROVISIONED, DID_ISSUED, ACTIVE]
        ensures s.history[id][k] == REVOKED || s.history[id][k] == REJECTED ==> k == |s.history[id]| - 1
      {
        PathShape(s.history[id], k);
      }
    }
  }

  // ------------------------------------------------------------ the winner

  /** The decision a request takes: it wins exactly when the row is APPLIED at that moment. */
  predicate Wins(s: Sys, step: Step, id: string) {
    && step.Decide? && step.request in s.requests && s.requests[step.request].Read?
    && s.requests[step.request].id == id
    && step.request in Apply(s, step).requests && Apply(s, step).requests[step.request].Won?
  }

  function WinCount(s: Sys, steps: seq<Step>, id: string): nat
    decreases |steps|
  {
    if steps == [] then 0
    else (if Wins(s, steps[0], id) then 1 else 0) + WinCount(Apply(s, steps[0]), steps[1..], id)
  }

  lemma AfterDecision(s: Sys, step: Step, id: string)
    requires SysOk(s)
    ensures id in s.table && s.table[id].state != Some(APPLIED) ==>
              id in Apply(s, step).table && Apply(s, step).table[id].state != Some(APPLIED) && !Wins(s, step, id)
    ensures Wins(s, step, id) ==> id in Apply(s, step).table && Apply(s, step).table[id].state != Some(APPLIED)
  {
    if step.RunMigrations? {
      if id in s.table {
        MigrateIsNoOp(s.table[id]);
      }
    } else if step.Decide? {
      assert step.request in s.requests && s.requests[step.request].Read? ==>
          Apply(s, step) == s.(requests := s.requests - {step.request}) || Wins(s, step, s.requests[step.request].id);
    }
  }

  /** At most one approve or reject request wins an artisan, whatever runs in between. */
  lemma {:induction false} OneWinner(s: Sys, steps: seq<Step>, id: string)
    requires SysOk(s)
    ensures WinCount(s, steps, id) <= 1
    ensures id in s.table && s.table[id].state != Some(APPLIED) ==> WinCount(s, steps, id) == 0
    decreases |steps|
  {
    if steps != [] {
      StepKeeps(s, steps[0]);
      AfterDecision(s, steps[0], id);
      OneWinner(Apply(s, steps[0]), steps[1..], id);
    }
  }

  // ------------------------------------------------------------ the table and a request by itself

  /** The legal transitions, edge by edge. */
  lemma LegalTransitions(s: State, t: State)
    ensures t in Successors(s) <==>
            || (s == APPLIED && t == APPROVED) || (s == APPLIED && t == REJECTED)
            || (s == APPROVED && t == WALLET_PROVISIONED) || (s == WALLET_PROVISIONED && t == DID_ISSUED)
            || (s == DID_ISSUED && t == ACTIVE)
            || (s == ACTIVE && t == SUSPENDED) || (s == ACTIVE && t == REVOKED)
            || (s == SUSPENDED && t == ACTIVE) || (s == SUSPENDED && t == REVOKED)
  {
  }

  /** An approve or reject request that runs by itself on an applied artisan decides it and writes both
      columns; on any other row it changes nothing. */
  lemma AloneDecides(s: Sys, q: nat, id: string, approve: bool)
    requires q !in s.requests && id in s.table
    ensures var s' := Apply(Apply(Apply(s, Start(q, id, approve)), Decide(q)), Finish(q));
            if s.table[id].state == Some(APPLIED) then
              s'.table == s.table[id := if approve then Row(Some(APPROVED), "approved") else Row(Some(REJECTED), "rejected")]
              && s'.requests == s.requests
            else s'.table == s.table && s'.requests == s.requests
  {
    var s1 := Apply(s, Start(q, id, approve));
    assert s1.requests - {q} == s.requests;
    var s2 := Apply(s1, Decide(q));
    assert s2.requests - {q} == s.requests;
  }

  // ------------------------------------------------------------ the second update

  /** The status update of a request that won this artisan takes effect. */
  predicate Finishes(s: Sys, step: Step, id: string) {
    && step.Finish? && step.request in s.requests && s.requests[step.request].Won? && s.requests[step.request].id == id
    && CasApplies(s.table, id, Target(s.requests[step.request].approve))
  }

  predicate Finished(s: Sys, steps: seq<Step>, id: string)
    decreases |steps|
  {
    steps != [] && (Finishes(s, steps[0], id) || Finished(Apply(s, steps[0]), steps[1..], id))
  }

  lemma StepStatus(s: Sys, step: Step, id: string)
    requires SysOk(s) && id in s.table
    ensures id in Apply(s, step).table
    ensures Apply(s, step).table[id].status == PENDING <==> s.table[id].status == PENDING && !Finishes(s, step, id)
  {
    if step.RunMigrations? {
      MigrateIsNoOp(s.table[id]);
    }
  }

  lemma {:induction false} RunStatus(s: Sys, steps: seq<Step>, id: string)
    requires SysOk(s) && id in s.table
    ensures id in Run(s, steps).table
    ensures Run(s, steps).table[id].status == PENDING <==> s.table[id].status == PENDING && !Finished(s, steps, id)
    decreases |steps|
  {
    if steps != [] {
      StepStatus(s, steps[0], id);
      StepKeeps(s, steps[0]);
      RunStatus(Apply(s, steps[0]), steps[1..], id);
    }
  }

  lemma NewRow(s: Sys, step: Step, id: string)
    requires SysOk(s) && id !in s.table
    ensures !Finishes(s, step, id)
    ensures id in Apply(s, step).table ==> Apply(s, step).table[id].status == PENDING
  {
  }

  /** An artisan's status is 'pending' exactly as long as no status update of a winning request has taken
      effect, whatever state the lifecycle is in by then. */
  lemma {:induction false} PendingExactly(s: Sys, steps: seq<Step>, id: string)
    requires SysOk(s) && id !in s.table && id in Run(s, steps).table
    ensures Run(s, steps).table[id].status == PENDING <==> !Finished(s, steps, id)
    decreases |steps|
  {
    if steps != [] {
      var s' := Apply(s, steps[0]);
      NewRow(s, steps[0], id);
      StepKeeps(s, steps[0]);
      if id in s'.table {
        RunStatus(s', steps[1..], id);
      } else {
        PendingExactly(s', steps[1..], id);
      }
    }
  }

  /** A request that won this artisan is about to write its status, and the state is still the one it set. */
  ghost predicate Finishing(s: Sys, id: string) {
    id in s.table && exists q :: q in s.requests && FinishesWith(s, q, id)
  }

  predicate FinishesWith(s: Sys, q: nat, id: string)
    requires q in s.requests
  {
    s.requests[q].Won? && s.requests[q].id == id && CasApplies(s.table, id, Target(s.requests[q].approve))
  }

  /** Left behind: decided, pending, and no request left to write the status. */
  ghost predicate Stuck(s: Sys, id: string) {
    id in s.table && s.table[id].state != Some(APPLIED) && s.table[id].status == PENDING && !Finishing(s, id)
  }

  lemma StuckStays(s: Sys, step: Step, id: string)
    requires SysOk(s) && Stuck(s, id)
    ensures Stuck(Apply(s, step), id)
  {
    var s' := Apply(s, step);
    AfterDecision(s, step, id);
    StepStatus(s, step, id);
    forall q | q in s'.requests
      ensures !FinishesWith(s', q, id)
    {
      if q in s.requests && s'.requests[q] == s.requests[q] {
        assert !FinishesWith(s, q, id);
        StepState(s, step, id);
      }
    }
  }

  /** Beyond APPLIED no step leads to APPROVED or REJECTED. */
  lemma StepState(s: Sys, step: Step, id: string)
    requires SysOk(s) && id in s.table && s.table[id].state != Some(APPLIED)
    ensures id in Apply(s, step).table
    ensures var state := Apply(s, step).table[id].state;
            state == s.table[id].state || (state != Some(APPROVED) && state != Some(REJECTED))
  {
    if step.RunMigrations? {
      MigrateIsNoOp(s.table[id]);
    }
  }

  lemma {:induction false} StuckForEver(s: Sys, steps: seq<Step>, id: string)
    requires SysOk(s) && Stuck(s, id)
    ensures Stuck(Run(s, steps), id)
    decreases |steps|
  {
    if steps != [] {
      StuckStays(s, steps[0], id);
      StepKeeps(s, steps[0]);
      StuckForEver(Apply(s, steps[0]), steps[1..], id);
    }
  }

  /** From every reachable state: a decided artisan whose status is 'pending' can get another status exactly
      while its winning request still has to write it and the state has not moved on. Otherwise it keeps
      'pending' for ever, an ACTIVE artisan included. */
  lemma PendingForEverExactly(history: seq<Step>, id: string)
    requires var s := Run(INIT, history); id in s.table && s.table[id].state != Some(APPLIED) && s.table[id].status == PENDING
    ensures CanChange(Run(INIT, history), id) <==> Finishing(Run(INIT, history), id)
  {
    RunKeeps(INIT, history);
    var s := Run(INIT, history);
    if CanChange(s, id) {
      var steps: seq<Step> :| HasOtherStatus(Run(s, steps), id);
      if !Finishing(s, id) {
        StuckForEver(s, steps, id);
      }
    }
    if Finishing(s, id) {
      var q :| q in s.requests && FinishesWith(s, q, id);
      var steps := [Finish(q)];
      assert steps[1..] == [] && Run(s, steps) == Run(Apply(s, Finish(q)), []);
      assert Finishes(s, Finish(q), id);
      StepStatus(s, Finish(q), id);
      assert HasOtherStatus(Run(s, steps), id);
    }
  }

  /** Some continuation gives the artisan another status. */
  ghost predicate CanChange(s: Sys, id: string) {
    exists steps: seq<Step> :: HasOtherStatus(Run(s, steps), id)
  }

  ghost predicate HasOtherStatus(s: Sys, id: string) {
    id in s.table && s.table[id].status != PENDING
  }

  function Application(id: string): seq<Step> {
    [Register(id), Start(0, id, true), Decide(0)]
  }

  function Activation(id: string): seq<Step> {
    [Move(id, APPROVED, WALLET_PROVISIONED), Move(id, WALLET_PROVISIONED, DID_ISSUED), Move(id, DID_ISSUED, ACTIVE), Finish(0)]
  }

  lemma Applied(id: string)
    ensures Run(INIT, Application(id) + Activation(id)) ==
            Run(Sys(map[id := Row(Some(APPROVED), PENDING)], map[0 := Won(id, true)], map[id := [APPLIED, APPROVED]]), Activation(id))
  {
    var s1 := Apply(INIT, Register(id));
    var s2 := Apply(s1, Start(0, id, true));
    var s3 := Apply(s2, Decide(0));
    assert [APPLIED] + [APPROVED] == [APPLIED, APPROVED];
    assert s3.table == map[id := Row(Some(APPROVED), PENDING)] && s3.requests == map[0 := Won(id, true)]
           && s3.history == map[id := [APPLIED, APPROVED]];
    RunThree(INIT, Register(id), Start(0, id, true), Decide(0), Activation(id));
  }

  /** A run that leaves an ACTIVE artisan there: the state moves on between the two updates of an approval. */
  lemma ActiveButPending(id: string)
    ensures var s := Run(INIT, Application(id) + Activation(id));
            id in s.table && s.table[id] == Row(Some(ACTIVE), PENDING) && !Finishing(s, id)
  {
    Applied(id);
    var s3 := Sys(map[id := Row(Some(APPROVED), PENDING)], map[0 := Won(id, true)], map[id := [APPLIED, APPROVED]]);
    var s4 := Apply(s3, Activation(id)[0]);
    assert s4.table == map[id := Row(Some(WALLET_PROVISIONED), PENDING)];
    var s5 := Apply(s4, Activation(id)[1]);
    assert s5.table == map[id := Row(Some(DID_ISSUED), PENDING)];
    var s6 := Apply(s5, Activation(id)[2]);
    assert s6.table == map[id := Row(Some(ACTIVE), PENDING)] && s6.requests == map[0 := Won(id, true)];
    var s7 := Apply(s6, Activation(id)[3]);
    assert s7.table == s6.table && s7.requests == map[];
    RunFour(s3, Activation(id)[0], Activation(id)[1], Activation(id)[2], Activation(id)[3]);
  }

  lemma RunFour(s: Sys, a: Step, b: Step, c: Step, d: Step)
    ensures Run(s, [a, b, c, d]) == Apply(Apply(Apply(Apply(s, a), b), c), d)
  {
    RunThree(s, a, b, c, [d]);
    assert [a, b, c, d] == [a, b, c] + [d] && [d][1..] == [];
    assert Run(Apply(Apply(Apply(s, a), b), c), [d]) == Run(Apply(Apply(Apply(Apply(s, a), b), c), d), []);
  }

  lemma RunThree(s: Sys, a: Step, b: Step, c: Step, rest: seq<Step>)
    ensures Run(s, [a, b, c] + rest) == Run(Apply(Apply(Apply(s, a), b), c), rest)
  {
    assert ([a, b, c] + rest)[1..] == [b, c] + rest && ([b, c] + rest)[1..] == [c] + rest && ([c] + rest)[1..] == rest;
    assert Run(s, [a, b, c] + rest) == Run(Apply(s, a), [b, c] + rest);
    assert Run(Apply(s, a), [b, c] + rest) == Run(Apply(Apply(s, a), b), [c] + rest);
  }

  // ------------------------------------------------------------ the migration

  /** Running the migration again changes nothing exactly when the row had a state, or had a status
      that maps to none; the NULL update comes last, so an old decided row settles on the second run. */
  lemma MigrationIdempotence(r: Row)
    ensures MigrateRow(MigrateRow(r)) == MigrateRow(r) <==>
            !(r.state == None && (r.status == STATUS_APPROVED || r.status == STATUS_REJECTED))
    ensures MigrateRow(MigrateRow(MigrateRow(r))) == MigrateRow(MigrateRow(r))
    ensures r.state.Some? ==> MigrateRow(r).state.Some? && MigrateRow(r).status == r.status
  {
  }

  /** What the migration establishes. A row in state APPLIED with one of the three statuses is consistent after
      one run, a row without a state after two. 'approved' goes to APPROVED, 'rejected' to REJECTED, 'pending'
      stays APPLIED; every other state and every status is kept. */
  lemma MigrationSettles(r: Row)
    ensures MigrateRow(r).status == r.status
    ensures r.state == Some(APPLIED) && r.status == "approved" ==> MigrateRow(r).state == Some(APPROVED)
    ensures r.state == Some(APPLIED) && r.status == "rejected" ==> MigrateRow(r).state == Some(REJECTED)
    ensures r.state == Some(APPLIED) && r.status != "approved" && r.status != "rejected" ==> MigrateRow(r) == r
    ensures r.state == None ==> MigrateRow(r).state == Some(APPLIED)
    ensures r.state.Some? && r.state != Some(APPLIED) ==> MigrateRow(r) == r
    ensures r.status == "pending" || r.status == "approved" || r.status == "rejected" ==>
              (&& (r.state == Some(APPLIED) ==> RowOk(MigrateRow(r)))
               && (r.state == None ==> RowOk(MigrateRow(MigrateRow(r)))))
  {
  }

  /** The migration leaves a row alone exactly when it has a state that its status does not contradict. */
  lemma MigrationFixpoint(r: Row)
    ensures MigrateRow(r) == r <==>
            r.state.Some? && (r.state == Some(APPLIED) ==> r.status != STATUS_APPROVED && r.status != STATUS_REJECTED)
  {
  }

  /** Between any two steps of any run the migration changes no row. */
  lemma MigrationIsInvisible(steps: seq<Step>)
    ensures Migrate(Run(INIT, steps).table) == Run(INIT, steps).table
  {
    RunKeeps(INIT, steps);
    MigrateKeeps(Run(INIT, steps));
  }

  // ------------------------------------------------------------ the guard in front of it

  datatype Guard = Passed | NullIds(count: nat) | DuplicateId(id: string)

  /** `_ensure_artisan_id_constraint` over the column of ids. */
  method EnsureArtisanIds(ids: seq<Option<string>>) returns (g: Guard)
    ensures g == Passed <==> (forall i :: 0 <= i < |ids| ==> ids[i].Some?)
                             && (forall i, j :: 0 <= i < j < |ids| ==> ids[i] != ids[j])
    ensures g.NullIds? <==> exists i :: 0 <= i < |ids| && ids[i] == None
    ensures g.DuplicateId? ==> exists i, j :: 0 <= i < j < |ids| && ids[i] == ids[j] == Some(g.id)
  {
    var nulls := 0;
    for i := 0 to |ids|
      invariant nulls > 0 <==> exists k :: 0 <= k < i && ids[k] == None
    {
      if ids[i] == None {
        nulls := nulls + 1;
      }
    }
    if nulls > 0 {
      return NullIds(nulls);
    }
    for i := 0 to |ids|
      invariant forall a, b :: 0 <= a < b < |ids| && a < i ==> ids[a] != ids[b]
    {
      for j := i + 1 to |ids|
        invariant forall b :: i < b < j ==> ids[i] != ids[b]
      {
        if ids[i] == ids[j] {
          return DuplicateId(ids[i].value);
        }
      }
    }
    return Passed;
  }
}
