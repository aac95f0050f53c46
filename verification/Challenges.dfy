/** Accounts, challenge rows and challenge groups: each transaction as one step on the three tables. */
module Challenges {
  import opened Prelude
  import opened ChallengeStatus

  datatype Challenge = Challenge(
    account: int, status: Status,
    passedAt: Option<int>, breachedAt: Option<int>, reason: Option<Reason>, outcomeDay: Option<string>,
    suppressed: Option<Outcome>, acknowledgedAt: Option<int>)

  datatype ClosedReason = AsPassed | AsBreached | Retired

  datatype Account = Account(
    user: int, login: Option<int>, group: Option<int>, isActive: bool,
    closedAt: Option<int>, closedReason: Option<ClosedReason>)

  datatype GroupStatus = Running | Failed

  datatype Group = Group(
    user: int, status: GroupStatus, failedAt: Option<int>, isActive: bool, archivedAt: Option<int>)

  datatype Db = Db(challenges: map<int, Challenge>, accounts: map<int, Account>, groups: map<int, Group>)

  const EMPTY := Db(map[], map[], map[])

  const AUTO_ACK_DAYS: int := 7
  const DAY: int := 24 * 60 * 60 * 1000

  function FreshChallenge(account: int): Challenge {
    Challenge(account, Active, None, None, None, None, None, None)
  }

  function AsClosed(s: Status): ClosedReason {
    if s == Passed then AsPassed else AsBreached
  }

  // ---- row sets the statements select ------------------------------------------------------

  predicate IsActiveRow(db: Db, id: int, a: int) {
    id in db.challenges && db.challenges[id].account == a && db.challenges[id].status == Active
  }

  predicate IsSettledRow(db: Db, id: int, a: int) {
    id in db.challenges && db.challenges[id].account == a && db.challenges[id].status != Active
  }

  predicate HasActive(db: Db, a: int) {
    exists id :: id in db.challenges && IsActiveRow(db, id, a)
  }

  /** COALESCE(passed_at, breached_at); every settled row has one of the two. */
  function SettledAt(c: Challenge): int {
    if c.passedAt.Some? then c.passedAt.value
    else if c.breachedAt.Some? then c.breachedAt.value
    else 0
  }

  predicate LaterRow(db: Db, x: int, y: int)
    requires x in db.challenges && y in db.challenges
  {
    var tx, ty := SettledAt(db.challenges[x]), SettledAt(db.challenges[y]);
    tx > ty || (tx == ty && x >= y)
  }

  /** ORDER BY COALESCE(passed_at, breached_at) DESC, id DESC LIMIT 1 over the rows `ids`. */
  ghost predicate IsLatest(db: Db, id: int, ids: set<int>)
    requires ids <= db.challenges.Keys
  {
    id in ids && forall other :: other in ids ==> LaterRow(db, id, other)
  }

  lemma {:induction false} LatestExists(db: Db, ids: set<int>)
    requires ids <= db.challenges.Keys
    ensures ids == {} || exists id :: IsLatest(db, id, ids)
  {
    if forall x :: x !in ids {
      assert ids == {};
    } else {
      var x :| x in ids;
      var rest := ids - {x};
      assert ids == rest + {x};
      LatestExists(db, rest);
      if rest == {} {
        assert IsLatest(db, x, ids);
      } else {
        var y :| IsLatest(db, y, rest);
        assert IsLatest(db, if LaterRow(db, x, y) then x else y, ids);
      }
    }
  }

  lemma LatestIsUnique(db: Db, x: int, y: int, ids: set<int>)
    requires ids <= db.challenges.Keys && IsLatest(db, x, ids) && IsLatest(db, y, ids)
    ensures x == y
  {
  }

  ghost function Latest(db: Db, ids: set<int>): (id: int)
    requires ids <= db.challenges.Keys && ids != {}
    ensures IsLatest(db, id, ids)
  {
    LatestExists(db, ids);
    var id :| IsLatest(db, id, ids);
    id
  }

  function SettledRows(db: Db, a: int): set<int> {
    set id | id in db.challenges && IsSettledRow(db, id, a)
  }

  function UnansweredRows(db: Db, a: int): set<int> {
    set id | id in db.challenges && IsSettledRow(db, id, a) && db.challenges[id].acknowledgedAt.None?
  }

  /** No trade of the account's login closed after `at`. */
  predicate NoTradeAfter(trades: set<(int, int)>, login: Option<int>, at: int) {
    forall t :: t in trades && login == Some(t.0) ==> t.1 <= at
  }

  /** Unanswered, older than seven days, and not traded since. */
  function RipeRows(db: Db, a: int, now: int, trades: set<(int, int)>): set<int>
    requires a in db.accounts
  {
    set id | id in UnansweredRows(db, a)
      && SettledAt(db.challenges[id]) < now - AUTO_ACK_DAYS * DAY
      && NoTradeAfter(trades, db.accounts[a].login, SettledAt(db.challenges[id]))
  }

  /** Open, unarchived, nothing running. */
  predicate Idle(db: Db, a: int) {
    a in db.accounts && db.accounts[a].isActive && db.accounts[a].closedAt.None? && !HasActive(db, a)
  }

  /** The accounts pendingOutcomesForUser lists. */
  predicate IsPending(db: Db, user: int, a: int) {
    Idle(db, a) && db.accounts[a].user == user && UnansweredRows(db, a) != {}
  }

  predicate InGroup(db: Db, a: int, g: int) {
    a in db.accounts && db.accounts[a].group == Some(g)
  }

  predicate GroupHasBreach(db: Db, g: int) {
    exists id :: (id in db.challenges && db.challenges[id].status == Breached
      && InGroup(db, db.challenges[id].account, g))
  }

  predicate GroupHasAccount(db: Db, g: int) {
    exists a :: a in db.accounts && InGroup(db, a, g)
  }

  predicate GroupHasActive(db: Db, g: int) {
    exists a :: a in db.accounts && InGroup(db, a, g) && db.accounts[a].isActive
  }

  // ---- the transactions --------------------------------------------------------------------

  /** A settled row: status and stamp, the reason for a breach only, the day when the verdict has one. */
  function Settled(c: Challenge, o: Outcome, now: int): Challenge {
    c.(status := o.status,
       passedAt := if o.status == Passed then Some(now) else c.passedAt,
       breachedAt := if o.status == Breached then Some(now) else c.breachedAt,
       reason := if o.status == Breached then o.reason else None,
       outcomeDay := if RecursOnItsOwn(o) then o.day else None)
  }

  /** UPDATE challenge_groups SET status = 'failed' for the account's group, when it is running. */
  function FailGroup(db: Db, a: int, now: int): map<int, Group> {
    map g | g in db.groups ::
      if InGroup(db, a, g) && db.groups[g].status == Running
      then db.groups[g].(status := Failed, failedAt := Some(now)) else db.groups[g]
  }

  predicate Silenced(db: Db, a: int, o: Outcome) {
    exists id :: id in db.challenges && IsActiveRow(db, id, a) && IsSuppressed(db.challenges[id].suppressed, o)
  }

  /** applyChallengeOutcome. */
  function Settle(db: Db, a: int, o: Outcome, now: int): Db {
    if o.status == Active || !HasActive(db, a) || Silenced(db, a, o) then db
    else
      Db(map id | id in db.challenges ::
           if IsActiveRow(db, id, a) then Settled(db.challenges[id], o, now) else db.challenges[id],
         db.accounts,
         if o.status == Breached then FailGroup(db, a, now) else db.groups)
  }

  /** evaluateAccountAlerts: the engine's verdict on the active row, then applyChallengeOutcome. */
  function Evaluate(db: Db, a: int, state: Option<Reading>, now: int): Db {
    Settle(db, a, Resolve(if HasActive(db, a) then Some(Active) else None, state), now)
  }

  function Reopened(c: Challenge, suppress: bool): Challenge {
    c.(status := Active, passedAt := None, breachedAt := None, reason := None,
       suppressed := if suppress then Some(Outcome(c.status, c.reason, c.outcomeDay)) else c.suppressed,
       acknowledgedAt := None, outcomeDay := None)
  }

  function Unclosed(acc: Account): Account {
    acc.(closedAt := None, closedReason := None)
  }

  /** The account's group stops being failed once nothing in it is breached. */
  function UnfailGroup(db: Db, a: int): map<int, Group> {
    map g | g in db.groups ::
      if InGroup(db, a, g) && db.groups[g].status == Failed && !GroupHasBreach(db, g)
      then db.groups[g].(status := Running, failedAt := None) else db.groups[g]
  }

  /** reopenChallenge on the row `id`. */
  function ReopenRow(db: Db, a: int, id: int, suppress: bool): Db
    requires id in db.challenges && a in db.accounts
  {
    var mid := Db(db.challenges[id := Reopened(db.challenges[id], suppress)],
                  db.accounts[a := Unclosed(db.accounts[a])], db.groups);
    mid.(groups := UnfailGroup(mid, a))
  }

  ghost function Reopen(db: Db, a: int, suppress: bool): Db {
    if a !in db.accounts || HasActive(db, a) || SettledRows(db, a) == {} then db
    else ReopenRow(db, a, Latest(db, SettledRows(db, a)), suppress)
  }

  /** acknowledgeOutcome on the row `id`. */
  function AcknowledgeRow(db: Db, a: int, id: int, now: int): Db
    requires id in db.challenges && a in db.accounts
  {
    db.(challenges := db.challenges[id := db.challenges[id].(acknowledgedAt := Some(now))],
        accounts := if db.accounts[a].closedAt.Some? then db.accounts
                    else db.accounts[a := db.accounts[a].(closedAt := Some(now),
                                                          closedReason := Some(AsClosed(db.challenges[id].status)))])
  }

  ghost function Acknowledge(db: Db, a: int, now: int): Db {
    if a !in db.accounts || UnansweredRows(db, a) == {} then db
    else AcknowledgeRow(db, a, Latest(db, UnansweredRows(db, a)), now)
  }

  predicate IsRipe(db: Db, a: int, now: int, trades: set<(int, int)>) {
    Idle(db, a) && RipeRows(db, a, now, trades) != {}
  }

  /** The `ripe` CTE's row for an account. */
  ghost predicate IsRipeRow(db: Db, id: int, now: int, trades: set<(int, int)>)
    requires id in db.challenges
  {
    var a := db.challenges[id].account;
    IsRipe(db, a, now, trades) && id == Latest(db, RipeRows(db, a, now, trades))
  }

  /** sweepAutoAcknowledged: both updates read the same snapshot. */
  ghost function Sweep(db: Db, now: int, trades: set<(int, int)>): Db {
    db.(challenges := map id | id in db.challenges ::
          if IsRipeRow(db, id, now, trades) then db.challenges[id].(acknowledgedAt := Some(now)) else db.challenges[id],
        accounts := map a | a in db.accounts ::
          if IsRipe(db, a, now, trades)
          then db.accounts[a].(closedAt := Some(now),
                 closedReason := Some(AsClosed(db.challenges[Latest(db, RipeRows(db, a, now, trades))].status)))
          else db.accounts[a])
  }

  /** The row an advance closes. */
  function Advanced(c: Challenge, mark: Status, reason: Option<Reason>, now: int): Challenge {
    c.(status := mark, reason := reason,
       passedAt := if mark == Passed then Some(now) else c.passedAt,
       breachedAt := if mark == Breached then Some(now) else c.breachedAt)
  }

  /** advanceChallenge: the running row is closed as `mark` and a new one opened under id `newRow`. */
  function Advance(db: Db, user: int, a: int, mark: Status, reason: Option<Reason>, newRow: int, now: int): Db {
    if a !in db.accounts || db.accounts[a].user != user || mark == Active || newRow in db.challenges then db
    else
      db.(challenges := (map id | id in db.challenges ::
            if IsActiveRow(db, id, a)
            then Advanced(db.challenges[id], mark, reason, now)
            else db.challenges[id])[newRow := FreshChallenge(a)])
  }

  /** createChallengeForAccount, ON CONFLICT DO NOTHING. */
  function CreateChallenge(db: Db, a: int, newRow: int): Db {
    if a !in db.accounts || HasActive(db, a) || newRow in db.challenges then db
    else db.(challenges := db.challenges[newRow := FreshChallenge(a)])
  }

  /** syncActiveChallengeRules with some rule field present: the running row forgets what was silenced. */
  function EditRules(db: Db, a: int): Db {
    db.(challenges := map id | id in db.challenges ::
      if IsActiveRow(db, id, a) then db.challenges[id].(suppressed := None) else db.challenges[id])
  }

  /** lockJoinableGroup. */
  predicate Joinable(db: Db, g: int, user: int) {
    g in db.groups && db.groups[g].user == user && db.groups[g].status == Running && db.groups[g].isActive
  }

  /** provisionAccount for a prop account: joining a group or starting one, with its first challenge. */
  function Provision(db: Db, user: int, a: int, login: Option<int>, join: Option<int>, newGroup: int, newRow: int): Db {
    if a in db.accounts || newRow in db.challenges || (join.None? && newGroup in db.groups) then db
    else if join.Some? && !Joinable(db, join.value, user) then db
    else
      var g := if join.Some? then join.value else newGroup;
      Db(db.challenges[newRow := FreshChallenge(a)],
         db.accounts[a := Account(user, login, Some(g), true, None, None)],
         if join.Some? then db.groups else db.groups[g := Group(user, Running, None, true, None)])
  }

  /** createAccount, or a live-capital provision: no group. */
  function AddAccount(db: Db, user: int, a: int, login: Option<int>): Db {
    if a in db.accounts then db
    else db.(accounts := db.accounts[a := Account(user, login, None, true, None, None)])
  }

  predicate Owns(db: Db, user: int, a: int) {
    a in db.accounts && db.accounts[a].user == user
  }

  /** The `closed` field of updateAccount. */
  function SetClosed(db: Db, user: int, a: int, closed: bool, now: int): Db {
    if !Owns(db, user, a) then db
    else
      var acc := db.accounts[a];
      db.(accounts := db.accounts[a :=
        if closed
        then acc.(closedAt := if acc.closedAt.Some? then acc.closedAt else Some(now), closedReason := Some(Retired))
        else Unclosed(acc)])
  }

  /** The first statement of reconcileGroup: a group with no account left goes. */
  function DropEmpty(db: Db, g: int, user: int): Db {
    if g in db.groups && db.groups[g].user == user && !GroupHasAccount(db, g) then db.(groups := db.groups - {g})
    else db
  }

  /** Its second: the group is active when one of its accounts is. */
  function Archive(db: Db, g: int, user: int, now: int): Db {
    if g !in db.groups || db.groups[g].user != user || !GroupHasAccount(db, g) then db
    else if db.groups[g].isActive == GroupHasActive(db, g) then db
    else
      var any := GroupHasActive(db, g);
      var at := if any then None else if db.groups[g].archivedAt.Some? then db.groups[g].archivedAt else Some(now);
      db.(groups := db.groups[g := db.groups[g].(isActive := any, archivedAt := at)])
  }

  /** reconcileGroup, both statements in one transaction. */
  function Reconcile(db: Db, g: int, user: int, now: int): Db {
    Archive(DropEmpty(db, g, user), g, user, now)
  }

  function ReconcileOf(db: Db, g: Option<int>, user: int, now: int): Db {
    if g.None? then db else Reconcile(db, g.value, user, now)
  }

  /** Archive or unarchive through updateAccount; the account's group is reconciled by later statements. */
  function SetActive(db: Db, user: int, a: int, active: bool): Db {
    if !Owns(db, user, a) then db
    else db.(accounts := db.accounts[a := db.accounts[a].(isActive := active)])
  }

  /** The database without an account and its challenges, its group not yet reconciled. */
  function Removed(db: Db, a: int): Db {
    db.(accounts := db.accounts - {a},
        challenges := map id | id in db.challenges && db.challenges[id].account != a :: db.challenges[id])
  }

  /** deleteAccount: the account row takes its challenge rows with it, then its group is reconciled. */
  function Delete(db: Db, user: int, a: int, now: int): Db {
    if !Owns(db, user, a) then db
    else ReconcileOf(Removed(db, a), db.accounts[a].group, user, now)
  }

  // ---- runs --------------------------------------------------------------------------------

  datatype Step =
    | DoProvision(user: int, a: int, login: Option<int>, join: Option<int>, newGroup: int, newRow: int)
    | DoAddAccount(user: int, a: int, login: Option<int>)
    | DoCreateChallenge(a: int, newRow: int)
    | DoEvaluate(a: int, state: Option<Reading>)
    | DoSettle(a: int, outcome: Outcome)
    | DoReopen(a: int, suppress: bool)
    | DoAcknowledge(a: int)
    | DoSweep(trades: set<(int, int)>)
    | DoAdvance(user: int, a: int, mark: Status, reason: Option<Reason>, newRow: int)
    | DoEditRules(a: int)
    | DoSetClosed(user: int, a: int, closed: bool)
    | DoSetActive(user: int, a: int, active: bool)
    | DoDropEmpty(user: int, g: int)
    | DoArchive(user: int, g: int)
    | DoDelete(user: int, a: int)

  ghost function Next(db: Db, s: Step, now: int): Db {
    match s
    case DoProvision(user, a, login, join, g, newRow) => Provision(db, user, a, login, join, g, newRow)
    case DoAddAccount(user, a, login) => AddAccount(db, user, a, login)
    case DoCreateChallenge(a, newRow) => CreateChallenge(db, a, newRow)
    case DoEvaluate(a, state) => Evaluate(db, a, state, now)
    case DoSettle(a, o) => Settle(db, a, o, now)
    case DoReopen(a, suppress) => Reopen(db, a, suppress)
    case DoAcknowledge(a) => Acknowledge(db, a, now)
    case DoSweep(trades) => Sweep(db, now, trades)
    case DoAdvance(user, a, mark, reason, newRow) => Advance(db, user, a, mark, reason, newRow, now)
    case DoEditRules(a) => EditRules(db, a)
    case DoSetClosed(user, a, closed) => SetClosed(db, user, a, closed, now)
    case DoSetActive(user, a, active) => SetActive(db, user, a, active)
    case DoDropEmpty(user, g) => DropEmpty(db, g, user)
    case DoArchive(user, g) => Archive(db, g, user, now)
    case DoDelete(user, a) => Delete(db, user, a, now)
  }

  datatype Event = Event(step: Step, now: int)

  ghost function After(db: Db, events: seq<Event>): Db {
    if events == [] then db
    else
      var e := events[|events| - 1];
      Next(After(db, events[..|events| - 1]), e.step, e.now)
  }

  // ---- groups still owed a reconcile -----------------------------------------------------------

  /** Archiving or unarchiving an account leaves its group owed one, until the archive statement or a
      deletion's own reconcile has been through. */
  function Owed(db: Db, s: Step, owed: set<int>): set<int> {
    match s
    case DoSetActive(user, a, active) =>
      if Owns(db, user, a) && db.accounts[a].group.Some? then owed + {db.accounts[a].group.value} else owed
    case DoArchive(user, g) => if g in db.groups && db.groups[g].user == user then owed - {g} else owed
    case DoDelete(user, a) =>
      if Owns(db, user, a) && db.accounts[a].group.Some? then owed - {db.accounts[a].group.value} else owed
    case _ => owed
  }

  ghost function OwedAfter(events: seq<Event>): set<int> {
    if events == [] then {}
    else
      var init, e := events[..|events| - 1], events[|events| - 1];
      Owed(After(EMPTY, init), e.step, OwedAfter(init))
  }
}
