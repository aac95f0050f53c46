/** What each transaction does to its rows, column by column, from the columns it reads. */
module ChallengeLaws {
  import opened Prelude
  import opened ChallengeStatus
  import opened Challenges
  import opened ChallengeInvariants
  import opened ChallengeRuns

  /** The one running row of account `a`. */
  predicate Runs(db: Db, id: int, a: int) {
    id in db.challenges && db.challenges[id].account == a && db.challenges[id].status == Active
  }

  lemma RunsMeansActive(db: Db, a: int)
    ensures HasActive(db, a) <==> exists id :: Runs(db, id, a)
  {
    if id :| Runs(db, id, a) {
      assert IsActiveRow(db, id, a);
    }
    if id :| id in db.challenges && IsActiveRow(db, id, a) {
      assert Runs(db, id, a);
    }
  }

  lemma OnlyRow(db: Db, id: int, a: int)
    requires Invariant(db) && Runs(db, id, a)
    ensures HasActive(db, a) && forall x :: x in db.challenges && IsActiveRow(db, x, a) ==> x == id
  {
    assert IsActiveRow(db, id, a);
    forall x | x in db.challenges && IsActiveRow(db, x, a) ensures x == id {
      assert SameActive(db.challenges[x], db.challenges[id]);
    }
  }

  // ---- the engine's verdict ------------------------------------------------------------------

  /** A running row nobody silenced, read by the engine with its rules: it passes when the target and the days
      are met and nothing is breached, it breaches when something is, and otherwise it runs on. */
  lemma EvaluationSettles(db: Db, id: int, a: int, r: Reading, now: int)
    requires Invariant(db) && Runs(db, id, a) && db.challenges[id].suppressed.None? && r.hasMaxDd
    ensures id in Next(db, DoEvaluate(a, Some(r)), now).challenges
    ensures var was, c := db.challenges[id], Next(db, DoEvaluate(a, Some(r)), now).challenges[id];
      && (c.status == Passed <==> !r.breached && r.targetReached && r.daysMet)
      && (c.status == Breached <==> r.breached)
      && (c.status == Passed ==>
            c == was.(status := Passed, passedAt := Some(now), breachedAt := None, reason := None, outcomeDay := None))
      && (c.status == Breached ==>
            c == was.(status := Breached, passedAt := None, breachedAt := Some(now), reason := r.breachReason,
                      outcomeDay := if r.breachReason == Some(DailyDd) then r.dailyDay else None))
      && (c.status == Active ==> c == was)
  {
    OnlyRow(db, id, a);
    assert RowShape(db.challenges[id]);
  }

  /** Without rules, without a reading or without a running row, an evaluation writes nothing. */
  lemma EvaluationNeedsRules(db: Db, a: int, state: Option<Reading>, now: int)
    requires state.None? || !state.value.hasMaxDd || forall id :: !Runs(db, id, a)
    ensures Next(db, DoEvaluate(a, state), now) == db
  {
    RunsMeansActive(db, a);
  }

  /** Besides that row an evaluation touches only the account's group: a breach fails it, dated, if it was running. */
  lemma EvaluationTouchesNothingElse(db: Db, id: int, a: int, r: Reading, now: int)
    requires Invariant(db) && Runs(db, id, a) && db.challenges[id].suppressed.None? && r.hasMaxDd
    ensures var d := Next(db, DoEvaluate(a, Some(r)), now);
      && d.accounts == db.accounts && d.challenges.Keys == db.challenges.Keys && d.groups.Keys == db.groups.Keys
      && (forall x :: x in db.challenges && x != id ==> d.challenges[x] == db.challenges[x])
      && (forall g :: g in db.groups ==>
            d.groups[g] == if r.breached && db.accounts[a].group == Some(g) && db.groups[g].status == Running
                           then db.groups[g].(status := Failed, failedAt := Some(now)) else db.groups[g])
  {
    OnlyRow(db, id, a);
    assert a in db.accounts;
  }

  // ---- a settlement by hand --------------------------------------------------------------------

  /** Settled by hand: the stamp of its outcome, the reason for a breach only, the day for a daily-loss breach
      only; a silenced row stays as it is. */
  lemma HandSettles(db: Db, id: int, a: int, o: Outcome, now: int)
    requires Invariant(db) && Runs(db, id, a) && o.status != Active
    ensures id in Next(db, DoSettle(a, o), now).challenges
    ensures var was, c := db.challenges[id], Next(db, DoSettle(a, o), now).challenges[id];
      var covered := was.suppressed.Some? && was.suppressed.value.status == o.status
        && was.suppressed.value.reason == o.reason
        && (was.suppressed.value.day.None?
            || was.suppressed.value.day.value == (if o.day.Some? then o.day.value else ""));
      && (covered ==> c == was)
      && (!covered && o.status == Passed ==>
            c == was.(status := Passed, passedAt := Some(now), breachedAt := None, reason := None, outcomeDay := None))
      && (!covered && o.status == Breached ==>
            c == was.(status := Breached, passedAt := None, breachedAt := Some(now), reason := o.reason,
                      outcomeDay := if o.reason == Some(DailyDd) then o.day else None))
  {
    OnlyRow(db, id, a);
    assert RowShape(db.challenges[id]);
  }

  /** Settled earlier, or at the same time under a lower id. */
  predicate NoLater(db: Db, x: int, id: int)
    requires x in db.challenges && id in db.challenges
  {
    var tx, t := SettledAt(db.challenges[x]), SettledAt(db.challenges[id]);
    tx < t || (tx == t && x <= id)
  }

  // ---- reopening -------------------------------------------------------------------------------

  /** Reopened: the latest settled row runs again, clean but for what it silences, and its account is open. */
  lemma ReopenedRow(db: Db, a: int, id: int, suppress: bool, now: int)
    requires Invariant(db)
    requires id in db.challenges && db.challenges[id].account == a && db.challenges[id].status != Active
    requires forall x :: !Runs(db, x, a)
    requires forall x :: x in db.challenges && db.challenges[x].account == a && db.challenges[x].status != Active ==>
      NoLater(db, x, id)
    ensures var d, was := Next(db, DoReopen(a, suppress), now), db.challenges[id];
      && id in d.challenges && a in d.accounts
      && d.challenges[id] == Challenge(a, Active, None, None, None, None,
           if suppress then Some(Outcome(was.status, was.reason, was.outcomeDay)) else was.suppressed, None)
      && d.accounts[a] == db.accounts[a].(closedAt := None, closedReason := None)
      && (forall x :: x in db.challenges && x != id ==> x in d.challenges && d.challenges[x] == db.challenges[x])
      && (forall b :: b in db.accounts && b != a ==> b in d.accounts && d.accounts[b] == db.accounts[b])
  {
    assert IsSettledRow(db, id, a) && id in SettledRows(db, a);
    RunsMeansActive(db, a);
    LatestIsUnique(db, id, Latest(db, SettledRows(db, a)), SettledRows(db, a));
  }

  /** With it the account's failed group runs again, undated, unless another row in the group is a breach; no other
      group changes. */
  lemma ReopenedGroup(db: Db, a: int, id: int, suppress: bool, g: int, now: int)
    requires Invariant(db) && g in db.groups
    requires id in db.challenges && db.challenges[id].account == a && db.challenges[id].status != Active
    requires forall x :: !Runs(db, x, a)
    requires forall x :: x in db.challenges && db.challenges[x].account == a && db.challenges[x].status != Active ==>
      NoLater(db, x, id)
    ensures var d, was := Next(db, DoReopen(a, suppress), now), db.groups[g];
      && d.groups.Keys == db.groups.Keys
      && d.groups[g] == if db.accounts[a].group == Some(g) && was.status == Failed && !OtherBreachIn(db, id, g)
                        then was.(status := Running, failedAt := None) else was
  {
    assert IsSettledRow(db, id, a) && id in SettledRows(db, a);
    RunsMeansActive(db, a);
    LatestIsUnique(db, id, Latest(db, SettledRows(db, a)), SettledRows(db, a));
    BreachLeft(db, a, id, g, suppress);
  }

  /** A breached row other than `id`, of an account in the group. */
  ghost predicate OtherBreachIn(db: Db, id: int, g: int) {
    exists x :: x != id && BreachAt(db, x, g)
  }

  predicate BreachAt(db: Db, x: int, g: int) {
    && x in db.challenges && db.challenges[x].status == Breached
    && db.challenges[x].account in db.accounts && db.accounts[db.challenges[x].account].group == Some(g)
  }

  lemma BreachLeft(db: Db, a: int, id: int, g: int, suppress: bool)
    requires id in db.challenges && a in db.accounts && db.challenges[id].account == a
    ensures var mid := Db(db.challenges[id := Reopened(db.challenges[id], suppress)],
                          db.accounts[a := Unclosed(db.accounts[a])], db.groups);
      GroupHasBreach(mid, g) <==> OtherBreachIn(db, id, g)
  {
    var mid := Db(db.challenges[id := Reopened(db.challenges[id], suppress)],
                  db.accounts[a := Unclosed(db.accounts[a])], db.groups);
    if x :| x != id && BreachAt(db, x, g) {
      assert x in mid.challenges && InGroup(mid, mid.challenges[x].account, g);
    }
    if x :| (x in mid.challenges && mid.challenges[x].status == Breached
             && InGroup(mid, mid.challenges[x].account, g)) {
      assert x != id && BreachAt(db, x, g);
    }
  }

  /** A settled row's date is its pass or its breach. */
  lemma DateOfSettlement(db: Db, id: int)
    requires Invariant(db) && id in db.challenges && db.challenges[id].status != Active
    ensures var c := db.challenges[id];
      (if c.status == Passed then c.passedAt else c.breachedAt) == Some(SettledAt(c))
  {
    assert RowShape(db.challenges[id]);
  }

  // ---- answering -------------------------------------------------------------------------------

  /** Answered: the row is dated now, and the account closes for its outcome unless it was closed already. */
  lemma AnsweredRow(db: Db, a: int, id: int, now: int)
    requires Invariant(db) && id in db.challenges && db.challenges[id].account == a
    requires db.challenges[id].status != Active && db.challenges[id].acknowledgedAt.None?
    requires forall x :: (x in db.challenges && db.challenges[x].account == a && db.challenges[x].status != Active
      && db.challenges[x].acknowledgedAt.None?) ==> NoLater(db, x, id)
    ensures var d, was := Next(db, DoAcknowledge(a), now), db.accounts[a];
      && d.challenges == db.challenges[id := db.challenges[id].(acknowledgedAt := Some(now))] && d.groups == db.groups
      && d.accounts == (if was.closedAt.Some? then db.accounts else db.accounts[a := was.(closedAt := Some(now),
           closedReason := Some(if db.challenges[id].status == Passed then AsPassed else AsBreached))])
  {
    assert IsSettledRow(db, id, a) && id in UnansweredRows(db, a);
    LatestIsUnique(db, id, Latest(db, UnansweredRows(db, a)), UnansweredRows(db, a));
  }

  // ---- the sweep -------------------------------------------------------------------------------

  /** A row the sweep may answer: settled more than seven days ago, unanswered, with no later trade. */
  predicate Waiting(db: Db, id: int, a: int, now: int, trades: set<(int, int)>) {
    && id in db.challenges && a in db.accounts && db.challenges[id].account == a
    && db.challenges[id].status != Active && db.challenges[id].acknowledgedAt.None?
    && SettledAt(db.challenges[id]) < now - 7 * 24 * 60 * 60 * 1000
    && forall t :: t in trades && db.accounts[a].login == Some(t.0) ==> t.1 <= SettledAt(db.challenges[id])
  }

  /** The sweep closes an account exactly when it is open, unarchived, runs nothing and has such a row. */
  lemma SweptExactly(db: Db, now: int, trades: set<(int, int)>, a: int)
    requires Invariant(db) && a in db.accounts
    ensures Next(db, DoSweep(trades), now).accounts[a] != db.accounts[a]
      <==> db.accounts[a].isActive && db.accounts[a].closedAt.None? && (forall x :: !Runs(db, x, a))
           && exists id :: Waiting(db, id, a, now, trades)
  {
    SweepClosesExactlyTheRipe(db, now, trades, a);
    RunsMeansActive(db, a);
    WaitingIsRipe(db, a, now, trades);
    assert RipeRows(db, a, now, trades) <= UnansweredRows(db, a);
  }

  lemma WaitingIsRipe(db: Db, a: int, now: int, trades: set<(int, int)>)
    requires a in db.accounts
    ensures RipeRows(db, a, now, trades) != {} <==> exists id :: Waiting(db, id, a, now, trades)
  {
    if id :| Waiting(db, id, a, now, trades) {
      assert IsSettledRow(db, id, a) && id in RipeRows(db, a, now, trades);
    } else {
      forall id ensures id !in RipeRows(db, a, now, trades) {
        assert !Waiting(db, id, a, now, trades);
      }
      assert RipeRows(db, a, now, trades) == {};
    }
  }

  // ---- advancing and editing -------------------------------------------------------------------

  /** Advanced: the running row closes with the mark, its stamp and reason, and a fresh one starts. */
  lemma AdvancedRows(db: Db, user: int, a: int, mark: Status, reason: Option<Reason>, newRow: int, now: int, id: int)
    requires Invariant(db) && Runs(db, id, a) && db.accounts[a].user == user
    requires mark != Active && newRow !in db.challenges
    ensures var d := Next(db, DoAdvance(user, a, mark, reason, newRow), now);
      && d.challenges == db.challenges[id := db.challenges[id].(status := mark, reason := reason,
           passedAt := if mark == Passed then Some(now) else None,
           breachedAt := if mark == Breached then Some(now) else None)]
           [newRow := Challenge(a, Active, None, None, None, None, None, None)]
      && d.accounts == db.accounts && d.groups == db.groups
  {
    OnlyRow(db, id, a);
    assert RowShape(db.challenges[id]) && a in db.accounts;
  }

  /** A rules edit lifts the silence of the running row and leaves every other row alone. */
  lemma EditLiftsSilence(db: Db, a: int, x: int, now: int)
    requires x in db.challenges
    ensures x in Next(db, DoEditRules(a), now).challenges && Next(db, DoEditRules(a), now).accounts == db.accounts
    ensures Next(db, DoEditRules(a), now).challenges[x]
      == if db.challenges[x].account == a && db.challenges[x].status == Active
         then db.challenges[x].(suppressed := None) else db.challenges[x]
  {
  }

  /** So whatever was rejected, the next evaluation after an edit settles the row on any verdict. */
  lemma EditedRowSpeaks(db: Db, id: int, a: int, r: Reading, now: int)
    requires Invariant(db) && Runs(db, id, a) && r.hasMaxDd
    ensures var d := Next(Next(db, DoEditRules(a), now), DoEvaluate(a, Some(r)), now);
      && id in d.challenges
      && (d.challenges[id].status == Passed <==> !r.breached && r.targetReached && r.daysMet)
      && (d.challenges[id].status == Breached <==> r.breached)
  {
    EditLiftsSilence(db, a, id, now);
    StepKeepsInvariant(db, DoEditRules(a), now);
    EvaluationSettles(Next(db, DoEditRules(a), now), id, a, r, now);
  }

  // ---- joining, closing, owning ----------------------------------------------------------------

  /** A phase joins a named challenge exactly when it is the user's, has not failed and is not archived; it
      brings one fresh running row. */
  lemma JoinsExactly(db: Db, user: int, a: int, login: Option<int>, g: int, newGroup: int, newRow: int, now: int)
    requires a !in db.accounts && newRow !in db.challenges
    ensures var d := Next(db, DoProvision(user, a, login, Some(g), newGroup, newRow), now);
      if g in db.groups && db.groups[g].user == user && db.groups[g].status == Running && db.groups[g].isActive
      then d == Db(db.challenges[newRow := Challenge(a, Active, None, None, None, None, None, None)],
                   db.accounts[a := Account(user, login, Some(g), true, None, None)], db.groups)
      else d == db
  {
  }

  /** A phase that names none starts a challenge of its own. */
  lemma StartsItsOwn(db: Db, user: int, a: int, login: Option<int>, g: int, newRow: int, now: int)
    requires a !in db.accounts && newRow !in db.challenges && g !in db.groups
    ensures Next(db, DoProvision(user, a, login, None, g, newRow), now)
      == Db(db.challenges[newRow := Challenge(a, Active, None, None, None, None, None, None)],
            db.accounts[a := Account(user, login, Some(g), true, None, None)],
            db.groups[g := Group(user, Running, None, true, None)])
  {
  }

  /** Creating a challenge for an account that has none running adds one fresh row, and otherwise does nothing. */
  lemma CreatesExactly(db: Db, a: int, newRow: int, now: int)
    requires newRow !in db.challenges
    ensures Next(db, DoCreateChallenge(a, newRow), now)
      == if a in db.accounts && forall x :: !Runs(db, x, a)
         then db.(challenges := db.challenges[newRow := Challenge(a, Active, None, None, None, None, None, None)])
         else db
  {
    RunsMeansActive(db, a);
  }

  /** An account outside every challenge starts open and not archived. */
  lemma AddsExactly(db: Db, user: int, a: int, login: Option<int>, now: int)
    requires a !in db.accounts
    ensures Next(db, DoAddAccount(user, a, login), now)
      == db.(accounts := db.accounts[a := Account(user, login, None, true, None, None)])
  {
  }

  /** An account of this owner in this group. */
  predicate OwnsIn(db: Db, user: int, a: int, g: int) {
    a in db.accounts && db.accounts[a].user == user && db.accounts[a].group == Some(g)
  }

  /** A group is owed a reconcile from an owner's archive edit of an account in it on, until the owner's archive
      statement has run or an account of it was deleted. */
  lemma OwedExactly(db: Db, s: Step, owed: set<int>, g: int)
    ensures g in Owed(db, s, owed) <==>
      match s
      case DoSetActive(user, a, _) => g in owed || OwnsIn(db, user, a, g)
      case DoArchive(user, h) => g in owed && !(h == g && g in db.groups && db.groups[g].user == user)
      case DoDelete(user, a) => g in owed && !OwnsIn(db, user, a, g)
      case _ => g in owed
  {
  }

  /** Retired by hand keeps the first closing date; taking it back clears date and reason. */
  lemma ClosedByHand(db: Db, user: int, a: int, closed: bool, now: int)
    requires a in db.accounts && db.accounts[a].user == user
    ensures var d, was := Next(db, DoSetClosed(user, a, closed), now), db.accounts[a];
      && d.challenges == db.challenges && d.groups == db.groups
      && d.accounts == db.accounts[a :=
           if !closed then was.(closedAt := None, closedReason := None)
           else if was.closedAt.Some? then was.(closedReason := Some(Retired))
           else was.(closedAt := Some(now), closedReason := Some(Retired))]
  {
  }

  /** Deleted: the account and its challenge rows are gone and no other account or row is. */
  lemma DeletedExactly(db: Db, user: int, a: int, now: int)
    requires a in db.accounts && db.accounts[a].user == user
    ensures var d := Next(db, DoDelete(user, a), now);
      && d.accounts == db.accounts - {a}
      && (forall id :: id in d.challenges <==> id in db.challenges && db.challenges[id].account != a)
      && (forall id :: id in d.challenges ==> d.challenges[id] == db.challenges[id])
  {
  }

  /** Whoever does not own an account changes nothing by advancing, closing, archiving or deleting it. */
  lemma OthersChangeNothing(db: Db, s: Step, now: int)
    requires match s
      case DoAdvance(user, a, _, _, _) => !(a in db.accounts && db.accounts[a].user == user)
      case DoSetClosed(user, a, _) => !(a in db.accounts && db.accounts[a].user == user)
      case DoSetActive(user, a, _) => !(a in db.accounts && db.accounts[a].user == user)
      case DoDelete(user, a) => !(a in db.accounts && db.accounts[a].user == user)
      case DoDropEmpty(user, g) => !(g in db.groups && db.groups[g].user == user)
      case DoArchive(user, g) => !(g in db.groups && db.groups[g].user == user)
      case _ => false
    ensures Next(db, s, now) == db
  {
  }

  /** The owner's group goes exactly when no account is in it; nothing else does. */
  lemma DropsExactly(db: Db, user: int, g: int, now: int)
    requires g in db.groups && db.groups[g].user == user
    ensures var d := Next(db, DoDropEmpty(user, g), now);
      d == db.(groups := if exists a :: a in db.accounts && db.accounts[a].group == Some(g) then db.groups
                         else db.groups - {g})
  {
    if a :| a in db.accounts && db.accounts[a].group == Some(g) {
      assert InGroup(db, a, g);
    }
  }

  /** An archive edit by the owner changes that one flag. */
  lemma FlagExactly(db: Db, user: int, a: int, active: bool, now: int)
    requires a in db.accounts && db.accounts[a].user == user
    ensures Next(db, DoSetActive(user, a, active), now)
      == db.(accounts := db.accounts[a := db.accounts[a].(isActive := active)])
  {
  }

  /** A first archive dates the group, a later one keeps the date, an unarchive clears it. */
  lemma ArchiveDates(db: Db, user: int, g: int, now: int)
    requires Invariant(db) && g in db.groups && db.groups[g].user == user
    ensures g in Next(db, DoArchive(user, g), now).groups
    ensures var was, after := db.groups[g], Next(db, DoArchive(user, g), now).groups[g];
      && (after.isActive <==>
            exists a :: a in db.accounts && db.accounts[a].group == Some(g) && db.accounts[a].isActive)
      && after == was.(isActive := after.isActive,
           archivedAt := if after.isActive then None else if was.isActive then Some(now) else was.archivedAt)
  {
    assert GroupShape(db.groups[g]);
    ActiveMeans(db, g);
  }

  lemma ActiveMeans(db: Db, g: int)
    ensures GroupHasActive(db, g)
      <==> exists a :: a in db.accounts && db.accounts[a].group == Some(g) && db.accounts[a].isActive
  {
    if a :| a in db.accounts && db.accounts[a].group == Some(g) && db.accounts[a].isActive {
      assert InGroup(db, a, g);
    }
  }
}
