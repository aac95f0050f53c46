/** Theorems over whole runs of the challenge tables, and the exact exceptions. */
module ChallengeRuns {
  import opened Prelude
  import opened ChallengeStatus
  import opened Challenges
  import opened ChallengeInvariants

  ghost predicate Invariant(db: Db) {
    Refs(db) && Rows(db) && OneActive(db) && Closures(db) && GroupsStand(db)
  }

  lemma StepKeepsInvariant(db: Db, s: Step, now: int)
    requires Invariant(db)
    ensures Invariant(Next(db, s, now))
  {
    KeepsRefs(db, s, now);
    KeepsRows(db, s, now);
    KeepsOneActive(db, s, now);
    KeepsClosures(db, s, now);
    KeepsStanding(db, s, now);
  }

  /** In every reachable state: one active challenge per account, every closure explained by an answered
      row, every group with an account and the dates of its state. */
  lemma {:induction false} EveryRun(events: seq<Event>)
    ensures Invariant(After(EMPTY, events))
  {
    if events != [] {
      EveryRun(events[..|events| - 1]);
      StepKeepsInvariant(After(EMPTY, events[..|events| - 1]), events[|events| - 1].step, events[|events| - 1].now);
    }
  }

  /** In every reachable state a group not owed a reconcile is active exactly when one of its accounts is. */
  lemma {:induction false} GroupsFollowUnlessOwed(events: seq<Event>)
    ensures GroupsFollow(After(EMPTY, events), OwedAfter(events))
  {
    if events != [] {
      var init, e := events[..|events| - 1], events[|events| - 1];
      GroupsFollowUnlessOwed(init);
      EveryRun(init);
      KeepsFollowing(After(EMPTY, init), e.step, e.now, OwedAfter(init));
    }
  }

  /** With every reconcile through, all of them are. */
  lemma NothingOwedAllFollow(events: seq<Event>, g: int)
    requires OwedAfter(events) == {} && g in After(EMPTY, events).groups
    ensures InStep(After(EMPTY, events), g)
  {
    GroupsFollowUnlessOwed(events);
  }

  /** Between the account's update and the reconcile its group lags, exactly when the edit decides it. */
  lemma ArchiveLagsExactly(db: Db, user: int, a: int, active: bool, g: int)
    requires Invariant(db) && Owns(db, user, a) && db.accounts[a].group == Some(g) && InStep(db, g)
    ensures InStep(SetActive(db, user, a, active), g)
      <==> (db.groups[g].isActive <==> active || OtherActive(db, a, g))
  {
    var d := SetActive(db, user, a, active);
    if b :| b in db.accounts && b != a && InGroup(db, b, g) && db.accounts[b].isActive {
      assert InGroup(d, b, g) && d.accounts[b].isActive;
    }
    if active {
      assert InGroup(d, a, g) && d.accounts[a].isActive;
    }
    if b :| b in d.accounts && InGroup(d, b, g) && d.accounts[b].isActive {
      assert b != a ==> InGroup(db, b, g) && db.accounts[b].isActive;
    }
  }

  predicate OtherActive(db: Db, a: int, g: int) {
    exists b :: b in db.accounts && b != a && InGroup(db, b, g) && db.accounts[b].isActive
  }

  predicate NoDelete(events: seq<Event>) {
    forall i :: 0 <= i < |events| ==> !events[i].step.DoDelete?
  }

  predicate NoBreachAdvance(events: seq<Event>) {
    forall i :: 0 <= i < |events| ==> !(events[i].step.DoAdvance? && events[i].step.mark == Breached)
  }

  lemma {:induction false} RunWithoutDelete(events: seq<Event>)
    requires NoDelete(events)
    ensures FailedHasBreach(After(EMPTY, events))
  {
    if events != [] {
      var init, e := events[..|events| - 1], events[|events| - 1];
      RunWithoutDelete(init);
      EveryRun(init);
      KeepsFailedHasBreach(After(EMPTY, init), e.step, e.now);
    }
  }

  lemma {:induction false} RunWithoutBreachAdvance(events: seq<Event>)
    requires NoBreachAdvance(events)
    ensures BreachFails(After(EMPTY, events))
  {
    if events != [] {
      var init, e := events[..|events| - 1], events[|events| - 1];
      RunWithoutBreachAdvance(init);
      EveryRun(init);
      KeepsBreachFails(After(EMPTY, init), e.step, e.now);
    }
  }

  /** Over runs that delete no account and advance nothing as a breach, a challenge is failed if and
      only if some account in it has a breached row. */
  lemma FailedIffBreached(events: seq<Event>, g: int)
    requires NoDelete(events) && NoBreachAdvance(events) && g in After(EMPTY, events).groups
    ensures After(EMPTY, events).groups[g].status == Failed <==> GroupHasBreach(After(EMPTY, events), g)
  {
    RunWithoutDelete(events);
    RunWithoutBreachAdvance(events);
  }

  // ---- the two exceptions, exactly -----------------------------------------------------------

  /** An advance marked as a breach keeps the rule unless it closes a running row of a running group. */
  lemma AdvanceBreachExactly(db: Db, user: int, a: int, reason: Option<Reason>, newRow: int, now: int)
    requires Invariant(db) && BreachFails(db) && Owns(db, user, a) && newRow !in db.challenges
    ensures BreachFails(Advance(db, user, a, Breached, reason, newRow, now))
      <==> !(HasActive(db, a) && db.accounts[a].group.Some?
             && db.groups[db.accounts[a].group.value].status == Running)
  {
    var d := Advance(db, user, a, Breached, reason, newRow, now);
    if HasActive(db, a) && db.accounts[a].group.Some? {
      var g := db.accounts[a].group.value;
      var id :| id in db.challenges && IsActiveRow(db, id, a);
      assert d.challenges[id].status == Breached && InGroup(d, d.challenges[id].account, g);
      assert GroupHasBreach(d, g);
    }
    if !BreachFails(d) {
      BreachedByAdvance(db, user, a, reason, newRow, now);
    }
  }

  lemma BreachedByAdvance(db: Db, user: int, a: int, reason: Option<Reason>, newRow: int, now: int)
    requires Invariant(db) && BreachFails(db) && Owns(db, user, a) && newRow !in db.challenges
    requires !BreachFails(Advance(db, user, a, Breached, reason, newRow, now))
    ensures HasActive(db, a) && db.accounts[a].group.Some? && db.groups[db.accounts[a].group.value].status == Running
  {
    var d := Advance(db, user, a, Breached, reason, newRow, now);
    var g :| g in d.groups && GroupHasBreach(d, g) && d.groups[g].status != Failed;
    var id :| id in d.challenges && d.challenges[id].status == Breached && InGroup(d, d.challenges[id].account, g);
    if !IsActiveRow(db, id, a) {
      assert db.challenges[id].status == Breached && InGroup(db, db.challenges[id].account, g);
    }
  }

  predicate OtherMember(db: Db, a: int, g: int) {
    exists b :: b in db.accounts && b != a && InGroup(db, b, g)
  }

  predicate OtherBreach(db: Db, a: int, g: int) {
    exists id :: id in db.challenges && db.challenges[id].status == Breached && db.challenges[id].account != a
      && InGroup(db, db.challenges[id].account, g)
  }

  /** Deleting an account of a failed group keeps the rule unless it takes the last breach and leaves
      members behind. */
  lemma DeleteExactly(db: Db, user: int, a: int, g: int, now: int)
    requires Invariant(db) && FailedHasBreach(db) && Owns(db, user, a)
    requires db.accounts[a].group == Some(g) && db.groups[g].status == Failed
    ensures FailedHasBreach(Delete(db, user, a, now)) <==> !(OtherMember(db, a, g) && !OtherBreach(db, a, g))
  {
    var d := Delete(db, user, a, now);
    DeleteMembers(db, user, a, g, now);
    if !(OtherMember(db, a, g) && !OtherBreach(db, a, g)) {
      forall h | h in d.groups && d.groups[h].status == Failed ensures GroupHasBreach(d, h) {
        if h == g {
          var id :| id in db.challenges && db.challenges[id].status == Breached && db.challenges[id].account != a
            && InGroup(db, db.challenges[id].account, g);
          assert InGroup(d, d.challenges[id].account, g);
        } else {
          var id :| id in db.challenges && db.challenges[id].status == Breached
            && InGroup(db, db.challenges[id].account, h);
          assert InGroup(d, d.challenges[id].account, h);
        }
      }
    }
  }

  lemma DeleteMembers(db: Db, user: int, a: int, g: int, now: int)
    requires Invariant(db) && Owns(db, user, a)
    requires db.accounts[a].group == Some(g) && db.groups[g].status == Failed
    ensures var d := Delete(db, user, a, now);
      && (g in d.groups <==> OtherMember(db, a, g))
      && (g in d.groups ==> d.groups[g].status == Failed && (GroupHasBreach(d, g) <==> OtherBreach(db, a, g)))
      && (forall h :: h != g ==> (h in d.groups <==> h in db.groups) && (h in d.groups ==> d.groups[h] == db.groups[h]))
  {
    var mid := Removed(db, a);
    var d := Delete(db, user, a, now);
    if b :| b in db.accounts && b != a && InGroup(db, b, g) {
      assert InGroup(mid, b, g);
    }
    if b :| b in mid.accounts && InGroup(mid, b, g) {
      assert InGroup(db, b, g);
    }
    if id :| id in db.challenges && db.challenges[id].status == Breached && db.challenges[id].account != a &&
             InGroup(db, db.challenges[id].account, g) {
      assert InGroup(d, d.challenges[id].account, g);
    }
    if id :| id in d.challenges && d.challenges[id].status == Breached && InGroup(d, d.challenges[id].account, g) {
      assert InGroup(db, db.challenges[id].account, g);
    }
  }

  // ---- reconcile, archive, ownership ---------------------------------------------------------

  /** A second reconcile finds nothing to do. */
  lemma ReconcileTwice(db: Db, g: int, user: int, now: int, later: int)
    ensures Reconcile(Reconcile(db, g, user, now), g, user, later) == Reconcile(db, g, user, now)
  {
    SameMembers(db, DropEmpty(db, g, user), g);
    SameMembers(db, Reconcile(db, g, user, now), g);
  }

  /** The archive date of a group does not move while it stays archived, whatever happens. */
  lemma ArchiveDateStays(db: Db, s: Step, now: int, g: int)
    requires Invariant(db) && g in db.groups && g in Next(db, s, now).groups
    requires db.groups[g].archivedAt.Some? && Next(db, s, now).groups[g].archivedAt.Some?
    ensures Next(db, s, now).groups[g].archivedAt == db.groups[g].archivedAt
  {
    assert GroupShape(db.groups[g]);
  }

  /** Reopening right after a settlement restores all three tables. */
  lemma ReopenUndoesSettle(db: Db, a: int, o: Outcome, now: int)
    requires Invariant(db) && FailedHasBreach(db) && BreachFails(db)
    requires a in db.accounts && HasActive(db, a) && o.status != Active && !Silenced(db, a, o)
    requires db.accounts[a].closedAt.None?
    requires forall id :: id in SettledRows(db, a) ==> SettledAt(db.challenges[id]) < now
    ensures Reopen(Settle(db, a, o, now), a, false) == db
  {
    var mid := Settle(db, a, o, now);
    var row :| row in db.challenges && IsActiveRow(db, row, a);
    OnlyThatRow(db, a, o, now, row);
    JustSettledIsLatest(db, a, o, now, row);
    var d := ReopenRow(mid, a, row, false);
    assert d.challenges == db.challenges;
    assert ClosedWell(db, a);
    forall g | g in db.groups && db.groups[g].status == Running ensures db.groups[g].failedAt.None? {
      assert GroupShape(db.groups[g]);
    }
    assert d.accounts == db.accounts;
    GroupsComeBack(db, mid, d, a);
  }

  /** Settling changes the one running row, and reopening that row gives it back. */
  lemma OnlyThatRow(db: Db, a: int, o: Outcome, now: int, row: int)
    requires Invariant(db) && row in db.challenges && IsActiveRow(db, row, a)
    requires o.status != Active && !Silenced(db, a, o)
    ensures var mid := Settle(db, a, o, now);
      && mid.challenges == db.challenges[row := Settled(db.challenges[row], o, now)]
      && Reopened(mid.challenges[row], false) == db.challenges[row]
      && !HasActive(mid, a)
  {
    forall id | id in db.challenges && id != row ensures !IsActiveRow(db, id, a) {
      assert !SameActive(db.challenges[id], db.challenges[row]);
    }
    assert RowShape(db.challenges[row]);
  }

  lemma JustSettledIsLatest(db: Db, a: int, o: Outcome, now: int, row: int)
    requires Invariant(db) && row in db.challenges && IsActiveRow(db, row, a)
    requires o.status != Active && !Silenced(db, a, o)
    requires forall id :: id in SettledRows(db, a) ==> SettledAt(db.challenges[id]) < now
    ensures var mid := Settle(db, a, o, now);
      SettledRows(mid, a) != {} && Latest(mid, SettledRows(mid, a)) == row
  {
    var mid := Settle(db, a, o, now);
    OnlyThatRow(db, a, o, now, row);
    assert RowShape(db.challenges[row]);
    assert row in SettledRows(mid, a) && SettledAt(mid.challenges[row]) == now;
    forall id | id in SettledRows(mid, a) && id != row ensures id in SettledRows(db, a) {
    }
    LatestIsUnique(mid, row, Latest(mid, SettledRows(mid, a)), SettledRows(mid, a));
  }

  lemma GroupsComeBack(db: Db, mid: Db, d: Db, a: int)
    requires a in db.accounts && d.challenges == db.challenges && d.accounts == db.accounts
    requires FailedHasBreach(db) && BreachFails(db)
    requires forall g :: g in db.groups && db.groups[g].status == Running ==> db.groups[g].failedAt.None?
    requires mid.groups == db.groups || exists now :: mid.groups == FailGroup(db, a, now)
    requires d.groups == UnfailGroup(d.(groups := mid.groups), a)
    ensures d == db
  {
    var back := d.(groups := mid.groups);
    forall g | g in db.groups ensures g in d.groups && d.groups[g] == db.groups[g] {
      assert GroupHasBreach(back, g) == GroupHasBreach(db, g) by {
        if id :| BreachedIn(db, id, g) {
          assert InGroup(back, back.challenges[id].account, g);
        }
        if id :| BreachedIn(back, id, g) {
          assert InGroup(db, db.challenges[id].account, g);
        }
      }
    }
    assert d.groups.Keys == db.groups.Keys;
  }

  // ---- what a rejection silences -------------------------------------------------------------

  ghost predicate StillRunning(db: Db, id: int, a: int, s0: Outcome) {
    id in db.challenges && IsActiveRow(db, id, a) && db.challenges[id].suppressed == Some(s0)
  }

  /** The row settled on a verdict the silenced one does not cover. */
  ghost predicate SpokeUp(db: Db, id: int, a: int, s0: Outcome) {
    && id in db.challenges && IsSettledRow(db, id, a)
    && var c := db.challenges[id];
    !IsSuppressed(Some(s0), Outcome(c.status, c.reason, c.outcomeDay))
  }

  /** Steps that leave the account's phase to the engine: no manual settle, reopen, advance, rules edit or
      delete of it. */
  predicate LeavesToEngine(s: Step, a: int) {
    match s
    case DoSettle(b, _) => b != a
    case DoReopen(b, _) => b != a
    case DoAdvance(_, b, _, _, _) => b != a
    case DoEditRules(b) => b != a
    case DoDelete(_, b) => b != a
    case _ => true
  }

  lemma SilenceStep(db: Db, s: Step, now: int, id: int, a: int, s0: Outcome)
    requires Invariant(db) && LeavesToEngine(s, a) && (StillRunning(db, id, a, s0) || SpokeUp(db, id, a, s0))
    ensures var d := Next(db, s, now); StillRunning(d, id, a, s0) || SpokeUp(d, id, a, s0)
  {
    match s
    case DoEvaluate(b, state) =>
      VerdictRules(if HasActive(db, b) then Some(Active) else None, state);
    case _ =>
  }

  /** After a rejection, no run of engine evaluations and other traffic settles the row on a verdict
      the rejection covers, until the rules are edited or the trader settles, reopens, advances or
      deletes the phase himself. */
  lemma {:induction false} SilenceHolds(db: Db, events: seq<Event>, id: int, a: int, s0: Outcome)
    requires Invariant(db) && StillRunning(db, id, a, s0)
    requires forall i :: 0 <= i < |events| ==> LeavesToEngine(events[i].step, a)
    ensures var d := After(db, events); Invariant(d) && (StillRunning(d, id, a, s0) || SpokeUp(d, id, a, s0))
  {
    if events != [] {
      var init, e := events[..|events| - 1], events[|events| - 1];
      SilenceHolds(db, init, id, a, s0);
      StepKeepsInvariant(After(db, init), e.step, e.now);
      SilenceStep(After(db, init), e.step, e.now, id, a, s0);
    }
  }

  /** A suppressing reopen stores exactly the verdict it undid, and the row runs again. */
  lemma RejectionIsStored(db: Db, a: int)
    requires Invariant(db) && a in db.accounts && !HasActive(db, a) && SettledRows(db, a) != {}
    ensures var id := Latest(db, SettledRows(db, a)); var c := db.challenges[id];
      StillRunning(Reopen(db, a, true), id, a, Outcome(c.status, c.reason, c.outcomeDay))
  {
  }

  /** From the rejection on: whatever the engine and the rest of the traffic do, the reopened row runs or has
      settled on a verdict other than the one rejected. */
  lemma RejectedStaysSilent(db: Db, a: int, events: seq<Event>)
    requires Invariant(db) && a in db.accounts && !HasActive(db, a) && SettledRows(db, a) != {}
    requires forall i :: 0 <= i < |events| ==> LeavesToEngine(events[i].step, a)
    ensures var id := Latest(db, SettledRows(db, a)); var c := db.challenges[id];
      var rejected, d := Outcome(c.status, c.reason, c.outcomeDay), After(Reopen(db, a, true), events);
      StillRunning(d, id, a, rejected) || SpokeUp(d, id, a, rejected)
  {
    var id := Latest(db, SettledRows(db, a));
    var c := db.challenges[id];
    RejectionIsStored(db, a);
    ReopenKeepsInvariant(db, a, true);
    SilenceHolds(Reopen(db, a, true), events, id, a, Outcome(c.status, c.reason, c.outcomeDay));
  }

  lemma ReopenKeepsInvariant(db: Db, a: int, suppress: bool)
    requires Invariant(db)
    ensures Invariant(Reopen(db, a, suppress))
  {
    StepKeepsInvariant(db, DoReopen(a, suppress), 0);
  }

  /** The verdict rejected: a pass or an undated breach for good, a dated daily-loss breach on that day. */
  predicate Covered(rejected: Outcome, v: Outcome) {
    v.status == rejected.status && v.reason == rejected.reason && (rejected.day.Some? ==> v.day == rejected.day)
  }

  /** An engine evaluation leaves the running row as it is exactly when it reaches no verdict or the one
      rejected. */
  lemma ScopeOfSilence(db: Db, id: int, a: int, rejected: Outcome, state: Option<Reading>, now: int)
    requires Invariant(db) && StillRunning(db, id, a, rejected)
    requires rejected.day.Some? ==> rejected.day.value != ""
    ensures var v := Resolve(Some(Active), state);
      Evaluate(db, a, state, now).challenges[id] == db.challenges[id] <==> v.status == Active || Covered(rejected, v)
  {
    var v := Resolve(Some(Active), state);
    assert HasActive(db, a);
    if v.status != Active {
      SuppressedMeansCovered(rejected, v);
      if !Covered(rejected, v) {
        OtherVerdictsSettle(db, id, a, rejected, state, now);
      }
    }
  }

  lemma SuppressedMeansCovered(rejected: Outcome, v: Outcome)
    requires rejected.day.Some? ==> rejected.day.value != ""
    ensures IsSuppressed(Some(rejected), v) <==> Covered(rejected, v)
  {
  }

  /** Any verdict outside that scope still settles the running row, as that verdict. */
  lemma OtherVerdictsSettle(db: Db, id: int, a: int, s0: Outcome, state: Option<Reading>, now: int)
    requires Invariant(db) && StillRunning(db, id, a, s0)
    requires var v := Resolve(Some(Active), state); v.status != Active && !IsSuppressed(Some(s0), v)
    ensures var v := Resolve(Some(Active), state); var c := Evaluate(db, a, state, now).challenges[id];
      Outcome(c.status, c.reason, c.outcomeDay) == v
  {
    VerdictRules(Some(Active), state);
    assert HasActive(db, a);
    forall x | x in db.challenges && IsActiveRow(db, x, a) ensures x == id {
      assert SameActive(db.challenges[x], db.challenges[id]);
    }
  }

  /** A manual settle is not held back when it names a pass together with a breach reason: the stored
      row then reads as the very verdict that was rejected. */
  lemma ManualPassWithReasonSlipsThrough(db: Db, id: int, a: int, now: int)
    requires Invariant(db) && StillRunning(db, id, a, Outcome(Passed, None, None))
    ensures var d := Settle(db, a, Outcome(Passed, Some(DailyDd), None), now);
      d.challenges[id].status == Passed && d.challenges[id].reason.None?
  {
    assert HasActive(db, a);
    forall x | x in db.challenges && IsActiveRow(db, x, a) ensures x == id {
      assert SameActive(db.challenges[x], db.challenges[id]);
    }
  }

  // ---- the sweep -----------------------------------------------------------------------------

  /** The sweep closes exactly the pending accounts that have an unanswered row older than seven days
      with no trade after it; the row it answers is the latest such row, and gives the reason. */
  lemma SweepClosesExactlyTheRipe(db: Db, now: int, trades: set<(int, int)>, a: int)
    requires Invariant(db) && a in db.accounts
    ensures var d := Sweep(db, now, trades); var user := db.accounts[a].user;
      && (d.accounts[a] != db.accounts[a] <==>
            IsPending(db, user, a) && RipeRows(db, a, now, trades) != {})
      && (d.accounts[a] != db.accounts[a] ==>
            && d.accounts[a].closedAt == Some(now)
            && exists id :: id in db.challenges && IsLatest(db, id, RipeRows(db, a, now, trades))
                 && d.challenges[id] == db.challenges[id].(acknowledgedAt := Some(now))
                 && d.accounts[a].closedReason == Some(AsClosed(db.challenges[id].status)))
  {
    var d := Sweep(db, now, trades);
    var ripe := RipeRows(db, a, now, trades);
    assert ripe <= UnansweredRows(db, a);
    if IsRipe(db, a, now, trades) {
      var id := Latest(db, ripe);
      assert id in ripe && IsRipeRow(db, id, now, trades);
      assert id in UnansweredRows(db, a);
    }
  }

  /** And it answers exactly the latest ripe row of each account it closes. */
  lemma SweepAnswersExactly(db: Db, now: int, trades: set<(int, int)>, id: int)
    requires Invariant(db) && id in db.challenges
    ensures var a := db.challenges[id].account; var d := Sweep(db, now, trades);
      d.challenges[id] != db.challenges[id]
      <==> d.accounts[a] != db.accounts[a] && IsLatest(db, id, RipeRows(db, a, now, trades))
  {
    var a := db.challenges[id].account;
    SweepClosesExactlyTheRipe(db, now, trades, a);
    if IsRipe(db, a, now, trades) {
      var ripe := RipeRows(db, a, now, trades);
      if IsLatest(db, id, ripe) {
        LatestIsUnique(db, id, Latest(db, ripe), ripe);
      }
      assert Latest(db, ripe) in ripe;
    }
  }
}
