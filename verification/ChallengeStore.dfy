/** The transactions as the code runs them, statement by statement on the tables, against their steps. */
module ChallengeStore {
  import opened Prelude
  import opened ChallengeStatus
  import opened Challenges
  import opened ChallengeInvariants
  import opened ChallengeRuns

  // ---- deleting an account's rows ------------------------------------------------------------

  datatype TableName = Payouts | AccountFees | EquitySnapshots | Balances | CandleRequests | Notifications

  const LOGIN_KEYED_TABLES: seq<TableName> :=
    [Payouts, AccountFees, EquitySnapshots, Balances, CandleRequests, Notifications]

  /** A row of a table keyed on the login; a user-level notification has none. */
  datatype LoginRow = LoginRow(table: TableName, login: Option<int>, id: int)

  datatype Statement =
    | DeleteByLogin(table: TableName, login: int)
    | DeleteAccountRow(id: int, user: int)

  function Cascade(id: int, login: Option<int>, user: int): seq<Statement> {
    (if login.Some? then seq(|LOGIN_KEYED_TABLES|, i requires 0 <= i < |LOGIN_KEYED_TABLES| =>
       DeleteByLogin(LOGIN_KEYED_TABLES[i], login.value)) else [])
    + [DeleteAccountRow(id, user)]
  }

  method CascadeDeleteStatements(id: int, login: Option<int>, user: int) returns (statements: seq<Statement>)
    ensures statements == Cascade(id, login, user)
  {
    statements := [];
    if login.Some? {
      for i := 0 to |LOGIN_KEYED_TABLES|
        invariant statements == seq(i, j requires 0 <= j < i => DeleteByLogin(LOGIN_KEYED_TABLES[j], login.value))
      {
        statements := statements + [DeleteByLogin(LOGIN_KEYED_TABLES[i], login.value)];
      }
    }
    statements := statements + [DeleteAccountRow(id, user)];
  }

  predicate KeyedOn(r: LoginRow, login: Option<int>) {
    login.Some? && r.login == login
  }

  /** The rows a deletion leaves: whatever table they are in, none of that login. */
  function Unkeyed(rows: set<LoginRow>, login: Option<int>): set<LoginRow> {
    set r | r in rows && !KeyedOn(r, login)
  }

  /** Whichever table a row is in, the list names it: no login-keyed table is skipped. */
  lemma EveryTableIsNamed(t: TableName)
    ensures t in LOGIN_KEYED_TABLES
  {
    match t
    case Payouts => assert LOGIN_KEYED_TABLES[0] == t;
    case AccountFees => assert LOGIN_KEYED_TABLES[1] == t;
    case EquitySnapshots => assert LOGIN_KEYED_TABLES[2] == t;
    case Balances => assert LOGIN_KEYED_TABLES[3] == t;
    case CandleRequests => assert LOGIN_KEYED_TABLES[4] == t;
    case Notifications => assert LOGIN_KEYED_TABLES[5] == t;
  }

  /** A row goes exactly when the account has a login and the row is keyed on it. */
  lemma RowsLeft(rows: set<LoginRow>, login: Option<int>, r: LoginRow)
    ensures r in Unkeyed(rows, login) <==> r in rows && (login == None || r.login != login)
  {
  }

  predicate DeletesFrom(statements: seq<Statement>, t: TableName, login: int) {
    exists i :: 0 <= i < |statements| && statements[i] == DeleteByLogin(t, login)
  }

  /** With a login every table is deleted from, by that login, and without one none is; the account's own row goes
      last, by its id and its owner. */
  lemma CascadeIs(id: int, login: Option<int>, user: int, t: TableName)
    ensures var all := Cascade(id, login, user);
      && |all| == (if login == None then 1 else 7) && all[|all| - 1] == DeleteAccountRow(id, user)
      && (forall l :: login == Some(l) ==> DeletesFrom(all, t, l))
      && (forall i :: 0 <= i < |all| - 1 ==> exists table, l :: login == Some(l) && all[i] == DeleteByLogin(table, l))
  {
    var all := Cascade(id, login, user);
    EveryTableIsNamed(t);
    if login.Some? {
      var i :| 0 <= i < |LOGIN_KEYED_TABLES| && LOGIN_KEYED_TABLES[i] == t;
      assert all[i] == DeleteByLogin(t, login.value);
      forall j | 0 <= j < |all| - 1
        ensures exists table, l :: login == Some(l) && all[j] == DeleteByLogin(table, l)
      {
        assert all[j] == DeleteByLogin(LOGIN_KEYED_TABLES[j], login.value);
      }
    }
  }

  class Store {
    var challenges: map<int, Challenge>
    var accounts: map<int, Account>
    var groups: map<int, Group>
    var loginRows: set<LoginRow>

    ghost function Tables(): Db
      reads this
    {
      Db(challenges, accounts, groups)
    }

    ghost predicate Valid()
      reads this
    {
      Invariant(Tables())
    }

    constructor ()
      ensures Tables() == EMPTY && loginRows == {} && Valid()
    {
      challenges, accounts, groups, loginRows := map[], map[], map[], {};
    }

    /** ORDER BY COALESCE(passed_at, breached_at) DESC, id DESC LIMIT 1. */
    method LatestOf(rows: map<int, Challenge>, ids: set<int>) returns (latest: int)
      requires ids <= rows.Keys && ids != {}
      ensures forall db: Db :: db.challenges == rows ==> IsLatest(db, latest, ids) && latest == Latest(db, ids)
    {
      var rest := ids;
      ghost var view := Db(rows, map[], map[]);
      latest := AnyOf(rest);
      rest := rest - {latest};
      while rest != {}
        invariant latest in ids && rest <= ids
        invariant forall other :: other in ids - rest ==> LaterRow(view, latest, other)
        decreases |rest|
      {
        var x := AnyOf(rest);
        ghost var was := latest;
        var tx, tl := SettledAt(rows[x]), SettledAt(rows[latest]);
        if tx > tl || (tx == tl && x >= latest) {
          latest := x;
        }
        forall other | other in ids - (rest - {x}) ensures LaterRow(view, latest, other) {
          assert other != x ==> LaterRow(view, was, other);
        }
        rest := rest - {x};
      }
      forall db: Db | db.challenges == rows ensures IsLatest(db, latest, ids) && latest == Latest(db, ids) {
        forall other | other in ids ensures LaterRow(db, latest, other) {
          assert LaterRow(view, latest, other);
        }
        LatestIsUnique(db, latest, Latest(db, ids), ids);
      }
    }

    method AnyOf(s: set<int>) returns (x: int)
      requires s != {}
      ensures x in s
    {
      EmptyOrMember(s);
      x :| x in s;
    }

    /** SELECT … WHERE status = 'active' FOR UPDATE: at most one row. */
    method RunningRow(a: int) returns (id: Option<int>)
      requires OneActive(Tables())
      ensures id.None? <==> !HasActive(Tables(), a)
      ensures id.Some? ==> id.value in challenges && IsActiveRow(Tables(), id.value, a)
    {
      var running := set x | x in challenges && challenges[x].account == a && challenges[x].status == Active;
      if running == {} {
        NoneActive(Tables(), a, running);
        return None;
      }
      var x := AnyOf(running);
      OnlyActive(Tables(), a, x);
      return Some(x);
    }

    /** applyChallengeOutcome: None is the rolled-back transaction. */
    method ApplyChallengeOutcome(a: int, o: Outcome, now: int) returns (settled: Option<int>)
      requires Valid()
      modifies this
      ensures Valid() && Tables() == Settle(old(Tables()), a, o, now)
      ensures loginRows == old(loginRows)
      ensures settled.None? ==> Tables() == old(Tables())
      ensures settled.Some? ==>
        IsActiveRow(old(Tables()), settled.value, a) && IsSettledRow(Tables(), settled.value, a)
    {
      SettleKeepsInvariant(Tables(), a, o, now);
      if o.status == Active {
        return None;
      }
      settled := RunningRow(a);
      if settled.Some? {
        if IsSuppressed(challenges[settled.value].suppressed, o) {
          return None;
        }
        SettleRow(a, settled.value, o, now);
      }
    }

    /** Its writes. */
    method SettleRow(a: int, id: int, o: Outcome, now: int)
      requires OneActive(Tables()) && id in challenges && IsActiveRow(Tables(), id, a)
      requires o.status != Active && !IsSuppressed(challenges[id].suppressed, o)
      modifies this`challenges, this`groups
      ensures Tables() == Settle(old(Tables()), a, o, now)
      ensures IsSettledRow(Tables(), id, a)
    {
      SettleByRow(Tables(), a, id, o, now);
      ghost var db := Tables();
      var row := Stamp(challenges[id], o, now);
      challenges := challenges[id := row];
      if o.status == Breached {
        Fail(a, now);
      }
      SameGroupsFail(db, Tables(), a, now);
    }

    /** The columns its UPDATE sets. */
    method Stamp(c: Challenge, o: Outcome, now: int) returns (row: Challenge)
      requires o.status != Active
      ensures row == Settled(c, o, now)
    {
      row := c;
      if o.status == Breached {
        row := row.(breachedAt := Some(now));
      } else {
        row := row.(passedAt := Some(now));
      }
      row := row.(status := o.status, reason := if o.status == Breached then o.reason else None,
                  outcomeDay := if RecursOnItsOwn(o) then o.day else None);
    }

    /** Its last statement, for a breach. */
    method Fail(a: int, now: int)
      modifies this`groups
      ensures groups == FailGroup(old(Tables()), a, now)
    {
      ghost var want := FailGroup(Tables(), a, now);
      if a in accounts && accounts[a].group.Some? {
        var g := accounts[a].group.value;
        if g in groups && groups[g].status == Running {
          groups := groups[g := groups[g].(status := Failed, failedAt := Some(now))];
        }
      }
      assert groups == want;
    }

    /** reopenChallenge. */
    method ReopenChallenge(a: int, suppress: bool) returns (reopened: Option<int>)
      requires Valid()
      modifies this
      ensures Valid() && Tables() == Reopen(old(Tables()), a, suppress) && loginRows == old(loginRows)
      ensures reopened.None? ==> Tables() == old(Tables())
      ensures reopened.Some? ==> IsActiveRow(Tables(), reopened.value, a) && accounts[a].closedAt.None?
    {
      ghost var db := Tables();
      StepKeepsInvariant(db, DoReopen(a, suppress), 0);
      var settled := set id | id in challenges && challenges[id].account == a && challenges[id].status != Active;
      var running := RunningRow(a);
      assert settled == SettledRows(db, a);
      if settled == {} || running.Some? {
        return None;
      }
      var id := LatestOf(challenges, settled);
      assert id in SettledRows(db, a) && a in accounts;
      var c := challenges[id];
      challenges := challenges[id := Reopened(c, suppress)];
      accounts := accounts[a := accounts[a].(closedAt := None, closedReason := None)];
      Unfail(a);
      return Some(id);
    }

    /** The last statement of reopenChallenge. */
    method Unfail(a: int)
      requires a in accounts
      modifies this`groups
      ensures groups == UnfailGroup(old(Tables()), a)
    {
      if accounts[a].group.None? {
        assert groups == UnfailGroup(Tables(), a);
        return;
      }
      var g := accounts[a].group.value;
      var breached := set x | x in challenges && challenges[x].status == Breached
        && challenges[x].account in accounts && accounts[challenges[x].account].group == Some(g);
      BreachedMeans(Tables(), g, breached);
      ghost var want := UnfailGroup(Tables(), a);
      if g in groups && groups[g].status == Failed && breached == {} {
        groups := groups[g := groups[g].(status := Running, failedAt := None)];
      }
      assert groups == want;
    }

    /** acknowledgeOutcome: the answer and the close are one transaction. */
    method AcknowledgeOutcome(a: int, now: int) returns (answered: Option<int>)
      requires Valid()
      modifies this
      ensures Valid() && Tables() == Acknowledge(old(Tables()), a, now) && loginRows == old(loginRows)
      ensures answered.None? <==> UnansweredRows(old(Tables()), a) == {}
      ensures answered.Some? ==>
        a in accounts && accounts[a].closedAt.Some?
        && answered.value in challenges && challenges[answered.value].acknowledgedAt == Some(now)
    {
      ghost var db := Tables();
      StepKeepsInvariant(db, DoAcknowledge(a), now);
      var waiting := set id | id in challenges && challenges[id].account == a && challenges[id].status != Active
        && challenges[id].acknowledgedAt.None?;
      assert waiting == UnansweredRows(db, a);
      if waiting == {} {
        return None;
      }
      var id := LatestOf(challenges, waiting);
      assert id in UnansweredRows(db, a) && a in accounts;
      challenges := challenges[id := challenges[id].(acknowledgedAt := Some(now))];
      if accounts[a].closedAt.None? {
        var reason := AsClosed(challenges[id].status);
        accounts := accounts[a := accounts[a].(closedAt := Some(now), closedReason := Some(reason))];
      }
      return Some(id);
    }

    /** advanceChallenge: close the running row, open the next one, for an owned account only. */
    method AdvanceChallenge(user: int, a: int, mark: Status, reason: Option<Reason>, newRow: int, now: int)
      returns (next: Option<int>)
      requires Valid() && mark != Active && newRow !in challenges
      modifies this
      ensures Valid() && Tables() == Advance(old(Tables()), user, a, mark, reason, newRow, now)
      ensures loginRows == old(loginRows)
      ensures next == if Owns(old(Tables()), user, a) then Some(newRow) else None
      ensures next.Some? ==> IsActiveRow(Tables(), newRow, a)
    {
      ghost var db := Tables();
      StepKeepsInvariant(db, DoAdvance(user, a, mark, reason, newRow), now);
      if a !in accounts || accounts[a].user != user {
        return None;
      }
      challenges := map id | id in challenges ::
        if challenges[id].account == a && challenges[id].status == Active
        then Advanced(challenges[id], mark, reason, now)
        else challenges[id];
      challenges := challenges[newRow := FreshChallenge(a)];
      AdvanceByRow(db, user, a, mark, reason, newRow, now);
      return Some(newRow);
    }

    /** The first statement of reconcileGroup. */
    method DropEmptyGroup(g: int, user: int) returns (gone: bool)
      modifies this`groups
      ensures Tables() == DropEmpty(old(Tables()), g, user)
      ensures gone <==> g in old(groups) && g !in groups
    {
      var members := set a | a in accounts && accounts[a].group == Some(g);
      MembersMean(Tables(), g, members);
      gone := g in groups && groups[g].user == user && members == {};
      if gone {
        groups := groups - {g};
      }
    }

    /** Its second. */
    method ArchiveGroup(g: int, user: int, now: int)
      modifies this`groups
      ensures Tables() == Archive(old(Tables()), g, user, now)
    {
      var members := set a | a in accounts && accounts[a].group == Some(g);
      var actives := set a | a in members && accounts[a].isActive;
      MembersMean(Tables(), g, members);
      ActivesMean(Tables(), g, actives);
      if g in groups && groups[g].user == user && members != {} && groups[g].isActive != (actives != {}) {
        var row := groups[g];
        groups := groups[g := row.(isActive := actives != {},
          archivedAt := if actives != {} then None else if row.archivedAt.Some? then row.archivedAt else Some(now))];
      }
    }

    /** reconcileGroup with a client: delete the empty group first, then set what its accounts say. */
    method ReconcileGroup(g: Option<int>, user: int, now: int)
      modifies this`groups
      ensures Tables() == ReconcileOf(old(Tables()), g, user, now)
    {
      if g.Some? {
        var gone := DropEmptyGroup(g.value, user);
        if !gone {
          ArchiveGroup(g.value, user, now);
        }
      }
    }

    /** The login-keyed statements, one table after the other. */
    method DeleteLoginRows(login: Option<int>, statements: seq<Statement>)
      requires exists id, user :: statements == Cascade(id, login, user)
      modifies this`loginRows
      ensures loginRows == Unkeyed(old(loginRows), login)
    {
      ghost var before := loginRows;
      for i := 0 to |statements| - 1
        invariant loginRows == set r | r in before && !(KeyedOn(r, login) && r.table in LOGIN_KEYED_TABLES[..i])
      {
        var s := statements[i];
        assert s == DeleteByLogin(LOGIN_KEYED_TABLES[i], login.value);
        assert LOGIN_KEYED_TABLES[..i + 1] == LOGIN_KEYED_TABLES[..i] + [LOGIN_KEYED_TABLES[i]];
        loginRows := set r | r in loginRows && !(r.table == s.table && r.login == Some(s.login));
      }
      assert login.Some? ==> LOGIN_KEYED_TABLES[..|LOGIN_KEYED_TABLES|] == LOGIN_KEYED_TABLES;
      forall r: LoginRow ensures r.table in LOGIN_KEYED_TABLES {
        EveryTableIsNamed(r.table);
      }
    }

    /** The transaction of deleteAccount: statements in order, rolled back when the last one, the one
        that names the owner, removes nothing. `login` and `g` were read before it began. */
    method RunCascade(id: int, login: Option<int>, g: Option<int>, user: int, now: int) returns (ok: bool)
      requires Valid()
      modifies this
      ensures ok <==> Owns(old(Tables()), user, id)
      ensures !ok ==> Tables() == old(Tables()) && loginRows == old(loginRows)
      ensures ok ==> forall r :: r in loginRows <==> r in old(loginRows) && (login == None || r.login != login)
      ensures ok && old(accounts)[id].group == g ==> Valid() && Tables() == Delete(old(Tables()), user, id, now)
    {
      StepKeepsInvariant(Tables(), DoDelete(user, id), now);
      var before := loginRows;
      var statements := CascadeDeleteStatements(id, login, user);
      DeleteLoginRows(login, statements);
      if !(id in accounts && accounts[id].user == user) {
        loginRows := before;
        return false;
      }
      RemoveAccount(id);
      ReconcileGroup(g, user, now);
      return true;
    }

    /** The last statement, with what it cascades to. */
    method RemoveAccount(id: int)
      modifies this`accounts, this`challenges
      ensures Tables() == Removed(old(Tables()), id)
    {
      accounts := accounts - {id};
      challenges := map c | c in challenges && challenges[c].account != id :: challenges[c];
    }
  }

  // ---- what a statement's row set says -------------------------------------------------------

  lemma NoneActive(db: Db, a: int, rows: set<int>)
    requires rows == (set id | id in db.challenges && db.challenges[id].account == a
      && db.challenges[id].status == Active)
    ensures rows == {} ==> !HasActive(db, a)
  {
    if id :| id in db.challenges && IsActiveRow(db, id, a) {
      assert id in rows;
    }
  }

  lemma OnlyActive(db: Db, a: int, id: int)
    requires OneActive(db) && id in db.challenges && IsActiveRow(db, id, a)
    ensures HasActive(db, a) && forall x :: x in db.challenges && IsActiveRow(db, x, a) ==> x == id
  {
    forall x | x in db.challenges && IsActiveRow(db, x, a) ensures x == id {
      assert SameActive(db.challenges[x], db.challenges[id]);
    }
  }

  lemma SettleByRow(db: Db, a: int, id: int, o: Outcome, now: int)
    requires OneActive(db) && id in db.challenges && IsActiveRow(db, id, a)
    requires o.status != Active && !IsSuppressed(db.challenges[id].suppressed, o)
    ensures Settle(db, a, o, now).challenges == db.challenges[id := Settled(db.challenges[id], o, now)]
    ensures Settle(db, a, o, now).accounts == db.accounts
    ensures Settle(db, a, o, now).groups == if o.status == Breached then FailGroup(db, a, now) else db.groups
  {
    OnlyActive(db, a, id);
  }

  lemma SettleKeepsInvariant(db: Db, a: int, o: Outcome, now: int)
    requires Invariant(db)
    ensures Invariant(Settle(db, a, o, now))
  {
    StepKeepsInvariant(db, DoSettle(a, o), now);
  }

  /** Which group a breach fails does not depend on the challenge rows. */
  lemma SameGroupsFail(db: Db, d: Db, a: int, now: int)
    requires d.accounts == db.accounts
    ensures FailGroup(db, a, now) == FailGroup(db.(challenges := d.challenges), a, now)
  {
  }

  lemma AdvanceByRow(db: Db, user: int, a: int, mark: Status, reason: Option<Reason>, newRow: int, now: int)
    requires Owns(db, user, a) && mark != Active && newRow !in db.challenges
    ensures Advance(db, user, a, mark, reason, newRow, now)
      == db.(challenges := (map id | id in db.challenges ::
           if db.challenges[id].account == a && db.challenges[id].status == Active
           then Advanced(db.challenges[id], mark, reason, now) else db.challenges[id])[newRow := FreshChallenge(a)])
  {
  }

  lemma BreachedMeans(db: Db, g: int, rows: set<int>)
    requires rows == (set x | x in db.challenges && db.challenges[x].status == Breached
      && db.challenges[x].account in db.accounts && db.accounts[db.challenges[x].account].group == Some(g))
    ensures rows == {} <==> !GroupHasBreach(db, g)
  {
    if x :| x in db.challenges && db.challenges[x].status == Breached && InGroup(db, db.challenges[x].account, g) {
      assert x in rows;
    } else {
      forall x | x in db.challenges ensures x !in rows {
        assert !(db.challenges[x].status == Breached && InGroup(db, db.challenges[x].account, g));
      }
      assert rows == {};
    }
  }

  lemma ActivesMean(db: Db, g: int, actives: set<int>)
    requires actives == (set a | a in db.accounts && db.accounts[a].group == Some(g) && db.accounts[a].isActive)
    ensures actives == {} <==> !GroupHasActive(db, g)
  {
    if a :| a in db.accounts && InGroup(db, a, g) && db.accounts[a].isActive {
      assert a in actives;
    } else {
      forall a | a in db.accounts ensures a !in actives {
        assert !(InGroup(db, a, g) && db.accounts[a].isActive);
      }
      assert actives == {};
    }
  }

  lemma MembersMean(db: Db, g: int, members: set<int>)
    requires members == (set a | a in db.accounts && db.accounts[a].group == Some(g))
    ensures members == {} <==> !GroupHasAccount(db, g)
  {
    if a :| a in db.accounts && InGroup(db, a, g) {
      assert a in members;
    } else {
      forall a | a in db.accounts ensures a !in members {
        assert !InGroup(db, a, g);
      }
      assert members == {};
    }
  }
}
