/** What every step keeps, over every run of the challenge tables. */
module ChallengeInvariants {
  import opened Prelude
  import opened ChallengeStatus
  import opened Challenges

  /** Foreign keys, and a group only ever holds its owner's accounts. */
  ghost predicate Refs(db: Db) {
    && (forall id :: id in db.challenges ==> db.challenges[id].account in db.accounts)
    && (forall a :: a in db.accounts && db.accounts[a].group.Some? ==>
          && db.accounts[a].group.value in db.groups
          && db.groups[db.accounts[a].group.value].user == db.accounts[a].user)
  }

  predicate SameActive(x: Challenge, y: Challenge) {
    x.status == Active && y.status == Active && x.account == y.account
  }

  /** At most one active challenge per account. */
  ghost predicate OneActive(db: Db) {
    forall i, j :: i in db.challenges && j in db.challenges && SameActive(db.challenges[i], db.challenges[j]) ==> i == j
  }

  /** The stamps, reason and answer a row carries for its status. */
  predicate RowShape(c: Challenge) {
    match c.status
    case Active =>
      c.passedAt.None? && c.breachedAt.None? && c.reason.None? && c.outcomeDay.None? && c.acknowledgedAt.None?
    case Passed => c.passedAt.Some? && c.breachedAt.None?
    case Breached => c.breachedAt.Some? && c.passedAt.None?
  }

  ghost predicate Rows(db: Db) {
    forall id :: id in db.challenges ==> RowShape(db.challenges[id])
  }

  ghost predicate Answered(db: Db, a: int, s: Status) {
    exists id :: id in db.challenges && db.challenges[id].account == a && db.challenges[id].status == s
      && db.challenges[id].acknowledgedAt.Some?
  }

  ghost predicate ClosedWell(db: Db, a: int)
    requires a in db.accounts
  {
    var acc := db.accounts[a];
    && (acc.closedAt.None? <==> acc.closedReason.None?)
    && (acc.closedReason == Some(AsPassed) ==> Answered(db, a, Passed))
    && (acc.closedReason == Some(AsBreached) ==> Answered(db, a, Breached))
  }

  /** An account closed as passed or breached has an answered row of that very outcome. */
  ghost predicate Closures(db: Db) {
    forall a :: a in db.accounts ==> ClosedWell(db, a)
  }

  /** A group is dated exactly when archived, and exactly when failed. */
  predicate GroupShape(g: Group) {
    (g.archivedAt.None? <==> g.isActive) && (g.failedAt.None? <==> g.status == Running)
  }

  /** Every group has an account and the dates its state calls for. */
  ghost predicate GroupsStand(db: Db) {
    forall g :: g in db.groups ==> GroupHasAccount(db, g) && GroupShape(db.groups[g])
  }

  /** The group is active when one of its accounts is. */
  predicate InStep(db: Db, g: int)
    requires g in db.groups
  {
    db.groups[g].isActive <==> GroupHasActive(db, g)
  }

  /** Every group is in step with its accounts but those still owed a reconcile. */
  ghost predicate GroupsFollow(db: Db, owed: set<int>) {
    forall g :: g in db.groups && g !in owed ==> InStep(db, g)
  }

  ghost predicate FailedHasBreach(db: Db) {
    forall g :: g in db.groups && db.groups[g].status == Failed ==> GroupHasBreach(db, g)
  }

  ghost predicate BreachFails(db: Db) {
    forall g :: g in db.groups && GroupHasBreach(db, g) ==> db.groups[g].status == Failed
  }

  // ---- rows --------------------------------------------------------------------------------

  lemma KeepsRefs(db: Db, s: Step, now: int)
    requires Refs(db)
    ensures Refs(Next(db, s, now))
  {
    match s
    case DoReopen(a, suppress) => ReopenKeepsRefs(db, a, suppress);
    case DoAcknowledge(a) => AcknowledgeKeepsRefs(db, a, now);
    case DoSweep(trades) => SweepKeepsRefs(db, now, trades);
    case DoAdvance(user, a, mark, reason, newRow) => AdvanceKeepsRefs(db, user, a, mark, reason, newRow, now);
    case DoDropEmpty(user, g) => DropKeepsRefs(db, g, user);
    case DoDelete(user, a) => DeleteKeepsRefs(db, user, a, now);
    case _ => OtherStepKeepsRefs(db, s, now);
  }

  lemma OtherStepKeepsRefs(db: Db, s: Step, now: int)
    requires Refs(db)
    requires !s.DoReopen? && !s.DoAcknowledge? && !s.DoSweep? && !s.DoAdvance? && !s.DoDropEmpty? && !s.DoDelete?
    ensures Refs(Next(db, s, now))
  {
  }

  lemma ReopenKeepsRefs(db: Db, a: int, suppress: bool)
    requires Refs(db)
    ensures Refs(Reopen(db, a, suppress))
  {
  }

  lemma AcknowledgeKeepsRefs(db: Db, a: int, now: int)
    requires Refs(db)
    ensures Refs(Acknowledge(db, a, now))
  {
  }

  lemma SweepKeepsRefs(db: Db, now: int, trades: set<(int, int)>)
    requires Refs(db)
    ensures Refs(Sweep(db, now, trades))
  {
  }

  lemma AdvanceKeepsRefs(db: Db, user: int, a: int, mark: Status, reason: Option<Reason>, newRow: int, now: int)
    requires Refs(db)
    ensures Refs(Advance(db, user, a, mark, reason, newRow, now))
  {
  }

  lemma DropKeepsRefs(db: Db, g: int, user: int)
    requires Refs(db)
    ensures Refs(DropEmpty(db, g, user))
  {
    if DropEmpty(db, g, user) != db {
      forall a | a in db.accounts ensures db.accounts[a].group != Some(g) {
        assert !InGroup(db, a, g);
      }
    }
  }

  lemma DeleteKeepsRefs(db: Db, user: int, a: int, now: int)
    requires Refs(db)
    ensures Refs(Delete(db, user, a, now))
  {
    if Owns(db, user, a) && db.accounts[a].group.Some? {
      DropKeepsRefs(Removed(db, a), db.accounts[a].group.value, user);
    }
  }

  lemma KeepsRows(db: Db, s: Step, now: int)
    requires Rows(db)
    ensures Rows(Next(db, s, now))
  {
  }

  /** One running row stays one when no second one starts. */
  lemma OneActiveCarries(db: Db, d: Db)
    requires OneActive(db)
    requires forall id :: id in d.challenges && d.challenges[id].status == Active ==>
      id in db.challenges && SameActive(db.challenges[id], d.challenges[id])
    ensures OneActive(d)
  {
  }

  /** A row that starts running is the only one when its account had none. */
  lemma OneActiveStarts(db: Db, d: Db, row: int)
    requires OneActive(db) && row in d.challenges && !HasActive(db, d.challenges[row].account)
    requires forall id :: id in d.challenges && id != row && d.challenges[id].status == Active ==>
      id in db.challenges && SameActive(db.challenges[id], d.challenges[id])
    ensures OneActive(d)
  {
    forall id | id in d.challenges && id != row && SameActive(d.challenges[id], d.challenges[row]) ensures false {
      assert IsActiveRow(db, id, d.challenges[row].account);
      assert false;
    }
  }

  lemma KeepsOneActive(db: Db, s: Step, now: int)
    requires Refs(db) && OneActive(db)
    ensures OneActive(Next(db, s, now))
  {
    match s
    case DoProvision(user, a, login, join, g, newRow) => ProvisionKeepsOne(db, user, a, login, join, g, newRow);
    case DoCreateChallenge(a, newRow) => CreateKeepsOne(db, a, newRow);
    case DoReopen(a, suppress) => ReopenKeepsOne(db, a, suppress);
    case DoSweep(trades) => OneActiveCarries(db, Sweep(db, now, trades));
    case DoAdvance(user, a, mark, reason, newRow) => AdvanceKeepsOne(db, user, a, mark, reason, newRow, now);
    case _ => OtherStepKeepsOne(db, s, now);
  }

  lemma ProvisionKeepsOne(db: Db, user: int, a: int, login: Option<int>, join: Option<int>, newGroup: int, newRow: int)
    requires Refs(db) && OneActive(db)
    ensures OneActive(Provision(db, user, a, login, join, newGroup, newRow))
  {
    var d := Provision(db, user, a, login, join, newGroup, newRow);
    if d != db {
      forall id | id in db.challenges ensures !IsActiveRow(db, id, a) {
        assert db.challenges[id].account in db.accounts;
      }
      OneActiveStarts(db, d, newRow);
    }
  }

  lemma CreateKeepsOne(db: Db, a: int, newRow: int)
    requires OneActive(db)
    ensures OneActive(CreateChallenge(db, a, newRow))
  {
    if CreateChallenge(db, a, newRow) != db {
      OneActiveStarts(db, CreateChallenge(db, a, newRow), newRow);
    }
  }

  lemma ReopenKeepsOne(db: Db, a: int, suppress: bool)
    requires OneActive(db)
    ensures OneActive(Reopen(db, a, suppress))
  {
    if a in db.accounts && !HasActive(db, a) && SettledRows(db, a) != {} {
      OneActiveStarts(db, Reopen(db, a, suppress), Latest(db, SettledRows(db, a)));
    }
  }

  /** An advance closes whatever was running before its new row starts. */
  lemma AdvanceKeepsOne(db: Db, user: int, a: int, mark: Status, reason: Option<Reason>, newRow: int, now: int)
    requires OneActive(db)
    ensures OneActive(Advance(db, user, a, mark, reason, newRow, now))
  {
    var d := Advance(db, user, a, mark, reason, newRow, now);
    if d != db {
      var mid := db.(challenges := d.challenges - {newRow});
      OneActiveCarries(db, mid);
      assert !HasActive(mid, a);
      OneActiveStarts(mid, d, newRow);
    }
  }

  lemma OtherStepKeepsOne(db: Db, s: Step, now: int)
    requires OneActive(db)
    requires !s.DoProvision? && !s.DoCreateChallenge? && !s.DoReopen? && !s.DoSweep? && !s.DoAdvance?
    ensures OneActive(Next(db, s, now))
  {
    OneActiveCarries(db, Next(db, s, now));
  }

  // ---- closures ----------------------------------------------------------------------------

  predicate ClosedByOutcome(acc: Account) {
    acc.closedReason == Some(AsPassed) || acc.closedReason == Some(AsBreached)
  }

  /** An answered row of an account that `d` still shows closed by its outcome. */
  predicate Binds(db: Db, d: Db, id: int)
    requires id in db.challenges
  {
    var a := db.challenges[id].account;
    db.challenges[id].acknowledgedAt.Some? && a in d.accounts && ClosedByOutcome(d.accounts[a])
  }

  /** Closures survive when an account still closed by its outcome was so before, with its answered
      rows left as they were. */
  lemma ClosuresCarry(db: Db, d: Db)
    requires Closures(db)
    requires forall a :: a in d.accounts ==> (d.accounts[a].closedAt.None? <==> d.accounts[a].closedReason.None?)
    requires forall a :: a in d.accounts && ClosedByOutcome(d.accounts[a]) ==>
      a in db.accounts && db.accounts[a].closedReason == d.accounts[a].closedReason
    requires forall id :: id in db.challenges && Binds(db, d, id) ==>
      id in d.challenges && d.challenges[id] == db.challenges[id]
    ensures Closures(d)
  {
    forall a, st | a in d.accounts && ClosedByOutcome(d.accounts[a]) && Answered(db, a, st) ensures Answered(d, a, st) {
      var x :| x in db.challenges && db.challenges[x].account == a && db.challenges[x].status == st
        && db.challenges[x].acknowledgedAt.Some?;
      assert d.challenges[x].account == a;
    }
  }

  lemma AcknowledgeCloses(db: Db, a: int, now: int)
    requires Closures(db)
    ensures Closures(Acknowledge(db, a, now))
  {
    if a in db.accounts && UnansweredRows(db, a) != {} {
      var id := Latest(db, UnansweredRows(db, a));
      var d := Acknowledge(db, a, now);
      assert d.challenges[id].acknowledgedAt.Some? && d.challenges[id].account == a;
      assert Answered(d, a, db.challenges[id].status);
      forall b, st | Answered(db, b, st) ensures Answered(d, b, st) {
        AnsweredStays(db, d, b, st);
      }
    }
  }

  lemma AnsweredStays(db: Db, d: Db, a: int, st: Status)
    requires Answered(db, a, st) && db.challenges.Keys <= d.challenges.Keys
    requires forall id :: id in db.challenges && db.challenges[id].acknowledgedAt.Some? ==>
      d.challenges[id].account == db.challenges[id].account && d.challenges[id].status == db.challenges[id].status
      && d.challenges[id].acknowledgedAt.Some?
    ensures Answered(d, a, st)
  {
    var x :| x in db.challenges && db.challenges[x].account == a && db.challenges[x].status == st
      && db.challenges[x].acknowledgedAt.Some?;
    assert d.challenges[x].account == a;
  }

  lemma SweepCloses(db: Db, now: int, trades: set<(int, int)>)
    requires Closures(db)
    ensures Closures(Sweep(db, now, trades))
  {
    var d := Sweep(db, now, trades);
    forall a | a in d.accounts ensures ClosedWell(d, a) {
      forall st | Answered(db, a, st) ensures Answered(d, a, st) {
        AnsweredStays(db, d, a, st);
      }
      if IsRipe(db, a, now, trades) {
        var id := Latest(db, RipeRows(db, a, now, trades));
        assert IsRipeRow(db, id, now, trades) && d.challenges[id].acknowledgedAt.Some?;
        assert Answered(d, a, db.challenges[id].status);
      }
    }
  }

  lemma DeleteKeepsClosures(db: Db, user: int, a: int, now: int)
    requires Closures(db)
    ensures Closures(Delete(db, user, a, now))
  {
    ClosuresCarry(db, Delete(db, user, a, now));
  }

  lemma KeepsClosures(db: Db, s: Step, now: int)
    requires Refs(db) && Rows(db) && Closures(db)
    ensures Closures(Next(db, s, now))
  {
    match s
    case DoAcknowledge(a) => AcknowledgeCloses(db, a, now);
    case DoSweep(trades) => SweepCloses(db, now, trades);
    case DoDelete(user, a) => DeleteKeepsClosures(db, user, a, now);
    case _ => OtherStepKeepsClosures(db, s, now);
  }

  lemma OtherStepKeepsClosures(db: Db, s: Step, now: int)
    requires Rows(db) && Closures(db) && !s.DoAcknowledge? && !s.DoSweep? && !s.DoDelete?
    ensures Closures(Next(db, s, now))
  {
    ClosuresCarry(db, Next(db, s, now));
  }

  // ---- groups stand ------------------------------------------------------------------------

  /** A step that leaves a group's row and its members' groups alone keeps it standing. */
  lemma StandKept(db: Db, d: Db, g: int)
    requires g in d.groups && g in db.groups && GroupHasAccount(db, g)
    requires forall a :: InGroup(db, a, g) ==> InGroup(d, a, g)
    ensures GroupHasAccount(d, g)
  {
    var a :| a in db.accounts && InGroup(db, a, g);
    assert InGroup(d, a, g);
  }

  lemma KeepsStanding(db: Db, s: Step, now: int)
    requires Refs(db) && GroupsStand(db)
    ensures GroupsStand(Next(db, s, now))
  {
    match s
    case DoProvision(user, a, login, join, g, newRow) => ProvisionStands(db, user, a, login, join, g, newRow);
    case DoSettle(a, o) => SettleStands(db, a, o, now);
    case DoEvaluate(a, state) =>
      SettleStands(db, a, Resolve(if HasActive(db, a) then Some(Active) else None, state), now);
    case DoReopen(a, suppress) => ReopenStands(db, a, suppress);
    case DoDropEmpty(user, g) => DropStands(db, g, user);
    case DoArchive(user, g) => ArchiveStands(db, g, user, now);
    case DoDelete(user, a) => DeleteStands(db, user, a, now);
    case _ => OtherStepStands(db, s, now);
  }

  lemma ProvisionStands(db: Db, user: int, a: int, login: Option<int>, join: Option<int>, newGroup: int, newRow: int)
    requires Refs(db) && GroupsStand(db)
    ensures GroupsStand(Provision(db, user, a, login, join, newGroup, newRow))
  {
    var d := Provision(db, user, a, login, join, newGroup, newRow);
    if d != db {
      var joined := if join.Some? then join.value else newGroup;
      assert InGroup(d, a, joined);
      forall g | g in d.groups && g != joined ensures GroupHasAccount(d, g) {
        StandKept(db, d, g);
      }
    }
  }

  lemma SettleStands(db: Db, a: int, o: Outcome, now: int)
    requires GroupsStand(db)
    ensures GroupsStand(Settle(db, a, o, now))
  {
    SameStanding(db, Settle(db, a, o, now));
  }

  lemma ReopenStands(db: Db, a: int, suppress: bool)
    requires GroupsStand(db)
    ensures GroupsStand(Reopen(db, a, suppress))
  {
    SameStanding(db, Reopen(db, a, suppress));
  }

  /** Groups re-dated within their shape, and no account moved. */
  lemma SameStanding(db: Db, d: Db)
    requires GroupsStand(db) && d.groups.Keys == db.groups.Keys
    requires forall g :: g in d.groups ==> GroupShape(d.groups[g])
    requires forall a, g :: InGroup(db, a, g) ==> InGroup(d, a, g)
    ensures GroupsStand(d)
  {
    forall g | g in d.groups ensures GroupHasAccount(d, g) {
      StandKept(db, d, g);
    }
  }

  lemma DropStands(db: Db, g: int, user: int)
    requires GroupsStand(db)
    ensures DropEmpty(db, g, user) == db
  {
  }

  lemma ArchiveStands(db: Db, g: int, user: int, now: int)
    requires forall h :: h in db.groups && h != g ==> GroupHasAccount(db, h) && GroupShape(db.groups[h])
    requires g in db.groups ==> GroupShape(db.groups[g]) && GroupHasAccount(db, g)
    ensures GroupsStand(Archive(db, g, user, now))
  {
    var d := Archive(db, g, user, now);
    forall h | h in d.groups ensures GroupHasAccount(d, h) {
      StandKept(db, d, h);
    }
  }

  lemma DeleteStands(db: Db, user: int, a: int, now: int)
    requires Refs(db) && GroupsStand(db)
    ensures GroupsStand(Delete(db, user, a, now))
  {
    if Owns(db, user, a) {
      var mid, og := Removed(db, a), db.accounts[a].group;
      forall h | h in db.groups && Some(h) != og ensures GroupHasAccount(mid, h) {
        StandKept(db, mid, h);
      }
      if og.Some? {
        DropLeavesRest(mid, og.value, user);
        ArchiveStands(DropEmpty(mid, og.value, user), og.value, user, now);
      }
    }
  }

  /** After the drop, the group it was for is gone or has an account. */
  lemma DropLeavesRest(db: Db, g: int, user: int)
    requires g in db.groups ==> db.groups[g].user == user
    ensures var d := DropEmpty(db, g, user);
      && (g in d.groups ==> g in db.groups && d.groups[g] == db.groups[g] && GroupHasAccount(d, g))
      && (forall h :: h != g ==> (h in d.groups <==> h in db.groups) && (h in d.groups ==> d.groups[h] == db.groups[h]))
      && (forall h :: GroupHasAccount(d, h) <==> GroupHasAccount(db, h))
  {
    var d := DropEmpty(db, g, user);
    forall h ensures GroupHasAccount(d, h) <==> GroupHasAccount(db, h) {
      SameMembers(db, d, h);
    }
  }

  lemma OtherStepStands(db: Db, s: Step, now: int)
    requires GroupsStand(db)
    requires s.DoAddAccount? || s.DoCreateChallenge? || s.DoAcknowledge? || s.DoSweep? || s.DoAdvance? || s.DoEditRules?
      || s.DoSetClosed? || s.DoSetActive?
    ensures GroupsStand(Next(db, s, now))
  {
    SameStanding(db, Next(db, s, now));
  }

  // ---- groups follow their accounts --------------------------------------------------------

  /** A group whose members and state a step leaves alone is still in step with them. */
  lemma StepKept(db: Db, d: Db, g: int)
    requires g in db.groups && g in d.groups && InStep(db, g) && d.groups[g].isActive == db.groups[g].isActive
    requires forall a :: InGroup(d, a, g) <==> InGroup(db, a, g)
    requires forall a :: InGroup(d, a, g) && a in db.accounts ==> d.accounts[a].isActive == db.accounts[a].isActive
    ensures InStep(d, g)
  {
    if b :| b in db.accounts && InGroup(db, b, g) && db.accounts[b].isActive {
      assert InGroup(d, b, g);
    }
    if b :| b in d.accounts && InGroup(d, b, g) && d.accounts[b].isActive {
      assert InGroup(db, b, g);
    }
  }

  lemma SameMembers(db: Db, d: Db, g: int)
    requires db.accounts == d.accounts
    ensures GroupHasAccount(d, g) == GroupHasAccount(db, g) && GroupHasActive(d, g) == GroupHasActive(db, g)
  {
    if a :| a in db.accounts && InGroup(db, a, g) && db.accounts[a].isActive {
      assert InGroup(d, a, g);
    }
    if a :| a in d.accounts && InGroup(d, a, g) && d.accounts[a].isActive {
      assert InGroup(db, a, g);
    }
    if a :| a in db.accounts && InGroup(db, a, g) {
      assert InGroup(d, a, g);
    }
    if a :| a in d.accounts && InGroup(d, a, g) {
      assert InGroup(db, a, g);
    }
  }

  lemma ProvisionFollows(db: Db, user: int, a: int, login: Option<int>, join: Option<int>, newGroup: int, newRow: int,
                         owed: set<int>)
    requires Refs(db) && GroupsFollow(db, owed)
    ensures GroupsFollow(Provision(db, user, a, login, join, newGroup, newRow), owed)
  {
    var d := Provision(db, user, a, login, join, newGroup, newRow);
    if d != db {
      var joined := if join.Some? then join.value else newGroup;
      assert InGroup(d, a, joined) && d.accounts[a].isActive;
      forall g | g in d.groups && g !in owed && g != joined ensures InStep(d, g) {
        StepKept(db, d, g);
      }
    }
  }

  lemma SetActiveFollows(db: Db, user: int, a: int, active: bool, owed: set<int>)
    requires GroupsFollow(db, owed)
    ensures GroupsFollow(SetActive(db, user, a, active), Owed(db, DoSetActive(user, a, active), owed))
  {
    var d, more := SetActive(db, user, a, active), Owed(db, DoSetActive(user, a, active), owed);
    forall g | g in d.groups && g !in more ensures InStep(d, g) {
      StepKept(db, d, g);
    }
  }

  /** The archive statement brings its own group into step, whatever it showed before. */
  lemma ArchiveSettles(db: Db, g: int, user: int, now: int)
    requires g in db.groups && db.groups[g].user == user && GroupHasAccount(db, g)
    ensures InStep(Archive(db, g, user, now), g)
  {
    SameMembers(db, Archive(db, g, user, now), g);
  }

  lemma ArchiveFollows(db: Db, g: int, user: int, now: int, owed: set<int>)
    requires GroupsFollow(db, owed)
    requires g in db.groups && db.groups[g].user == user ==> GroupHasAccount(db, g)
    ensures GroupsFollow(Archive(db, g, user, now),
                         if g in db.groups && db.groups[g].user == user then owed - {g} else owed)
  {
    var d := Archive(db, g, user, now);
    forall h | h in d.groups && h != g && h !in owed ensures InStep(d, h) {
      StepKept(db, d, h);
    }
    if g in db.groups && db.groups[g].user == user {
      ArchiveSettles(db, g, user, now);
    }
  }

  lemma DeleteFollows(db: Db, user: int, a: int, now: int, owed: set<int>)
    requires Refs(db) && GroupsFollow(db, owed)
    ensures GroupsFollow(Delete(db, user, a, now), Owed(db, DoDelete(user, a), owed))
  {
    if Owns(db, user, a) {
      var mid, og := Removed(db, a), db.accounts[a].group;
      forall h | h in db.groups && h !in owed && Some(h) != og ensures InStep(mid, h) {
        StepKept(db, mid, h);
      }
      if og.Some? {
        ReconcileFollows(mid, og.value, user, now, owed);
      }
    }
  }

  /** Both statements in one go. */
  lemma ReconcileFollows(db: Db, g: int, user: int, now: int, owed: set<int>)
    requires g in db.groups ==> db.groups[g].user == user
    requires forall h :: h in db.groups && h !in owed && h != g ==> InStep(db, h)
    ensures GroupsFollow(Reconcile(db, g, user, now), owed - {g})
  {
    var mid := DropEmpty(db, g, user);
    DropLeavesRest(db, g, user);
    forall h | h in mid.groups && h !in owed + {g} ensures InStep(mid, h) {
      StepKept(db, mid, h);
    }
    ArchiveFollows(mid, g, user, now, owed + {g});
  }

  lemma KeepsFollowing(db: Db, s: Step, now: int, owed: set<int>)
    requires Refs(db) && GroupsStand(db) && GroupsFollow(db, owed)
    ensures GroupsFollow(Next(db, s, now), Owed(db, s, owed))
  {
    match s
    case DoProvision(user, a, login, join, g, newRow) => ProvisionFollows(db, user, a, login, join, g, newRow, owed);
    case DoSetActive(user, a, active) => SetActiveFollows(db, user, a, active, owed);
    case DoDropEmpty(user, g) => DropStands(db, g, user);
    case DoArchive(user, g) => ArchiveFollows(db, g, user, now, owed);
    case DoDelete(user, a) => DeleteFollows(db, user, a, now, owed);
    case _ => OtherStepFollows(db, s, now, owed);
  }

  /** The remaining steps move no account between groups and archive nothing. */
  lemma OtherStepFollows(db: Db, s: Step, now: int, owed: set<int>)
    requires GroupsFollow(db, owed)
    requires !s.DoProvision? && !s.DoSetActive? && !s.DoDropEmpty? && !s.DoArchive? && !s.DoDelete?
    ensures GroupsFollow(Next(db, s, now), owed)
  {
    var d := Next(db, s, now);
    forall g | g in d.groups && g !in owed ensures InStep(d, g) {
      StepKept(db, d, g);
    }
  }

  // ---- failed if and only if breached ------------------------------------------------------

  /** Failed groups keep a breach when every breached row stays where it was. */
  lemma FailedCarries(db: Db, d: Db)
    requires FailedHasBreach(db)
    requires forall g :: g in d.groups && d.groups[g].status == Failed ==>
      GroupHasBreach(d, g) || (g in db.groups && db.groups[g].status == Failed)
    requires forall id :: id in db.challenges && db.challenges[id].status == Breached ==>
      id in d.challenges && d.challenges[id].status == Breached && d.challenges[id].account == db.challenges[id].account
    requires forall a :: a in db.accounts ==> a in d.accounts && d.accounts[a].group == db.accounts[a].group
    ensures FailedHasBreach(d)
  {
    forall g | g in d.groups && d.groups[g].status == Failed ensures GroupHasBreach(d, g) {
      if g in db.groups && db.groups[g].status == Failed {
        var id :| id in db.challenges && db.challenges[id].status == Breached
          && InGroup(db, db.challenges[id].account, g);
        assert InGroup(d, d.challenges[id].account, g);
      }
    }
  }

  lemma SettleKeepsFailed(db: Db, a: int, o: Outcome, now: int)
    requires FailedHasBreach(db)
    ensures FailedHasBreach(Settle(db, a, o, now))
  {
    var d := Settle(db, a, o, now);
    forall g | g in d.groups && d.groups[g].status == Failed && db.groups[g].status != Failed
      ensures GroupHasBreach(d, g)
    {
      var id :| id in db.challenges && IsActiveRow(db, id, a);
      assert d.challenges[id].status == Breached && InGroup(d, d.challenges[id].account, g);
    }
    FailedCarries(db, d);
  }

  lemma ReopenKeepsFailed(db: Db, a: int, suppress: bool)
    ensures FailedHasBreach(db) ==> FailedHasBreach(Reopen(db, a, suppress))
  {
    if FailedHasBreach(db) && Reopen(db, a, suppress) != db {
      var id := Latest(db, SettledRows(db, a));
      var d := ReopenRow(db, a, id, suppress);
      forall g | g in d.groups && d.groups[g].status == Failed ensures GroupHasBreach(d, g) {
        var x :| x in db.challenges && db.challenges[x].status == Breached && InGroup(db, db.challenges[x].account, g);
        if InGroup(db, a, g) {
          var mid := d.(groups := db.groups);
          assert InGroup(mid, a, g);
          var y :| y in mid.challenges && mid.challenges[y].status == Breached
            && InGroup(mid, mid.challenges[y].account, g);
          assert InGroup(d, d.challenges[y].account, g);
        } else {
          assert x != id;
          assert InGroup(d, d.challenges[x].account, g);
        }
      }
    }
  }

  /** Only deleting an account can leave a failed group with no breach in it. */
  lemma KeepsFailedHasBreach(db: Db, s: Step, now: int)
    requires Refs(db) && FailedHasBreach(db) && !s.DoDelete?
    ensures FailedHasBreach(Next(db, s, now))
  {
    match s
    case DoSettle(a, o) => SettleKeepsFailed(db, a, o, now);
    case DoEvaluate(a, state) =>
      SettleKeepsFailed(db, a, Resolve(if HasActive(db, a) then Some(Active) else None, state), now);
    case DoReopen(a, suppress) => ReopenKeepsFailed(db, a, suppress);
    case DoAcknowledge(a) => FailedCarries(db, Acknowledge(db, a, now));
    case DoSweep(trades) => FailedCarries(db, Sweep(db, now, trades));
    case DoAdvance(user, a, mark, reason, newRow) => FailedCarries(db, Advance(db, user, a, mark, reason, newRow, now));
    case DoArchive(user, g) => FailedCarries(db, Archive(db, g, user, now));
    case DoDropEmpty(user, g) => FailedCarries(db, DropEmpty(db, g, user));
    case _ => OtherStepKeepsFailed(db, s, now);
  }

  lemma OtherStepKeepsFailed(db: Db, s: Step, now: int)
    requires Refs(db) && FailedHasBreach(db)
    requires s.DoProvision? || s.DoAddAccount? || s.DoCreateChallenge? || s.DoEditRules? || s.DoSetClosed?
      || s.DoSetActive?
    ensures FailedHasBreach(Next(db, s, now))
  {
    FailedCarries(db, Next(db, s, now));
  }

  /** A breached row in `d` was one before, or its group has failed. */
  lemma BreachCarries(db: Db, d: Db)
    requires BreachFails(db)
    requires forall g :: g in db.groups && g in d.groups && db.groups[g].status == Failed && GroupHasBreach(d, g) ==>
      d.groups[g].status == Failed
    requires forall id, g :: g in d.groups && BreachedIn(d, id, g) ==>
      d.groups[g].status == Failed || (g in db.groups && BreachedIn(db, id, g))
    ensures BreachFails(d)
  {
    forall g | g in d.groups && GroupHasBreach(d, g) ensures d.groups[g].status == Failed {
      var id :| id in d.challenges && d.challenges[id].status == Breached && InGroup(d, d.challenges[id].account, g);
      assert BreachedIn(d, id, g);
      if d.groups[g].status != Failed {
        assert BreachedIn(db, id, g) && GroupHasBreach(db, g);
      }
    }
  }

  predicate BreachedIn(db: Db, id: int, g: int) {
    id in db.challenges && db.challenges[id].status == Breached && InGroup(db, db.challenges[id].account, g)
  }

  lemma ReopenKeepsBreach(db: Db, a: int, suppress: bool)
    requires BreachFails(db)
    ensures BreachFails(Reopen(db, a, suppress))
  {
    var d := Reopen(db, a, suppress);
    if d != db {
      var mid := d.(groups := db.groups);
      forall g | g in d.groups && GroupHasBreach(d, g) ensures GroupHasBreach(mid, g) {
        var id :| id in d.challenges && d.challenges[id].status == Breached && InGroup(d, d.challenges[id].account, g);
        assert InGroup(mid, mid.challenges[id].account, g);
      }
      BreachCarries(db, d);
    }
  }

  lemma SettleKeepsBreach(db: Db, a: int, o: Outcome, now: int)
    requires BreachFails(db)
    ensures BreachFails(Settle(db, a, o, now))
  {
    BreachCarries(db, Settle(db, a, o, now));
  }

  lemma AdvanceKeepsBreach(db: Db, user: int, a: int, mark: Status, reason: Option<Reason>, newRow: int, now: int)
    requires BreachFails(db) && mark != Breached
    ensures BreachFails(Advance(db, user, a, mark, reason, newRow, now))
  {
    BreachCarries(db, Advance(db, user, a, mark, reason, newRow, now));
  }

  lemma ProvisionKeepsBreach(db: Db, user: int, a: int, login: Option<int>, join: Option<int>, newGroup: int,
                             newRow: int)
    requires Refs(db) && BreachFails(db)
    ensures BreachFails(Provision(db, user, a, login, join, newGroup, newRow))
  {
    BreachCarries(db, Provision(db, user, a, login, join, newGroup, newRow));
  }

  lemma SweepKeepsBreach(db: Db, now: int, trades: set<(int, int)>)
    requires BreachFails(db)
    ensures BreachFails(Sweep(db, now, trades))
  {
    BreachCarries(db, Sweep(db, now, trades));
  }

  lemma DeleteKeepsBreach(db: Db, user: int, a: int, now: int)
    requires BreachFails(db)
    ensures BreachFails(Delete(db, user, a, now))
  {
    BreachCarries(db, Delete(db, user, a, now));
  }

  /** Only an advance marked as a breach can leave a breach in a running group. */
  lemma KeepsBreachFails(db: Db, s: Step, now: int)
    requires Refs(db) && BreachFails(db) && !(s.DoAdvance? && s.mark == Breached)
    ensures BreachFails(Next(db, s, now))
  {
    match s
    case DoProvision(user, a, login, join, g, newRow) => ProvisionKeepsBreach(db, user, a, login, join, g, newRow);
    case DoEvaluate(a, state) =>
      SettleKeepsBreach(db, a, Resolve(if HasActive(db, a) then Some(Active) else None, state), now);
    case DoSettle(a, o) => SettleKeepsBreach(db, a, o, now);
    case DoReopen(a, suppress) => ReopenKeepsBreach(db, a, suppress);
    case DoSweep(trades) => SweepKeepsBreach(db, now, trades);
    case DoAdvance(user, a, mark, reason, newRow) => AdvanceKeepsBreach(db, user, a, mark, reason, newRow, now);
    case DoDelete(user, a) => DeleteKeepsBreach(db, user, a, now);
    case _ => OtherStepKeepsBreach(db, s, now);
  }

  lemma OtherStepKeepsBreach(db: Db, s: Step, now: int)
    requires Refs(db) && BreachFails(db)
    requires s.DoAddAccount? || s.DoCreateChallenge? || s.DoAcknowledge? || s.DoEditRules? || s.DoSetClosed?
      || s.DoSetActive? || s.DoDropEmpty? || s.DoArchive?
    ensures BreachFails(Next(db, s, now))
  {
    BreachCarries(db, Next(db, s, now));
  }
}
