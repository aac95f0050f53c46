/** Every interleaving of provisioning, binding, deferred charges, fee edits and deletions. */
module ProvisioningRuns {
  import opened Prelude
  import opened Provisioning

  /** The tables, and the charges read off a bind that are still on their way to the fee table. */
  datatype Db = Db(t: Tables, owed: map<int, Fee>)

  datatype Step =
    | Provision(r: Request)
    | Bind(id: int, seen: Option<int>, login: int)
    | PostDeferred(id: int)
    | LoseDeferred(id: int)
    | AddFee(login: int, user: int, date: int, amount: real, kind: FeeType)
    | DropFee(user: int, k: int)
    | DeleteAccount(user: int, id: int, seen: Option<int>)

  const Empty: Db := Db(Tables(map[], map[], 1, 1, {}, {}, {}), map[])

  /** A login the caller read earlier is still the account's, since it never changes. */
  predicate TruthfulRead(t: Tables, id: int, seen: Option<int>) {
    seen.Some? && id in t.accounts ==> t.accounts[id].login == seen
  }

  function AfterBind(db: Db, id: int, seen: Option<int>, login: int): Db {
    if BindAnswer(db.t, id, seen, login).Bound? then
      var t := WithLogin(db.t, id, login);
      Db(t, if HasChallengeFee(t.accounts[id]) then db.owed[id := ChallengeFee(id, t.accounts[id])] else db.owed)
    else db
  }

  function Next(db: Db, s: Step): Db {
    match s
    case Provision(r) => db.(t := Provisioned(db.t, r))
    case Bind(id, seen, login) => AfterBind(db, id, seen, login)
    case PostDeferred(id) => if id in db.owed then Db(Posted(db.t, db.owed[id]), db.owed - {id}) else db
    case LoseDeferred(id) => db.(owed := db.owed - {id})
    case AddFee(login, user, date, amount, kind) => db.(t := Posted(db.t, Fee(login, user, date, amount, kind, None)))
    case DropFee(user, k) => db.(t := WithoutFee(db.t, user, k))
    case DeleteAccount(user, id, seen) =>
      if TruthfulRead(db.t, id, seen) then db.(t := Deleted(db.t, user, id, seen)) else db
  }

  function After(db: Db, steps: seq<Step>): Db {
    if steps == [] then db else Next(After(db, steps[..|steps| - 1]), steps[|steps| - 1])
  }

  // ---- what every step keeps -------------------------------------------------------------------

  ghost predicate Ids(db: Db) {
    && db.t.nextId >= 1
    && (forall id :: id in db.t.accounts ==> 1 <= id < db.t.nextId)
    && (forall k :: k in db.t.fees ==> k < db.t.nextFee)
    && (forall id :: id in db.owed ==> 1 <= id < db.t.nextId)
  }

  ghost predicate DistinctLogins(t: Tables) {
    forall a, b :: (a in t.accounts && b in t.accounts && t.accounts[a].login.Some?
      && t.accounts[a].login == t.accounts[b].login) ==> a == b
  }

  ghost predicate DistinctKeys(t: Tables) {
    forall a, b :: (a in t.accounts && b in t.accounts && t.accounts[a].key.Some?
      && t.accounts[a].key == t.accounts[b].key) ==> a == b
  }

  ghost predicate SyntheticLogins(t: Tables) {
    forall id :: id in t.accounts && !Synced(t.accounts[id].how) ==> t.accounts[id].login == Some(-id)
  }

  /** A challenge exactly for a prop account, a job exactly for auto sync, no credential without a job. */
  ghost predicate Equipped(t: Tables) {
    && (forall id :: id in t.challenged <==> id in t.accounts && t.accounts[id].prop)
    && (forall id :: id in t.jobs <==> id in t.accounts && t.accounts[id].how.AutoSync?)
    && t.credentials <= t.jobs
  }

  /** A charge for an account that still exists is exactly the one its row asks for. */
  predicate Matches(t: Tables, id: int, f: Fee) {
    && f.ref == Some(id)
    && (id in t.accounts ==> HasChallengeFee(t.accounts[id]) && f == ChallengeFee(id, t.accounts[id]))
  }

  predicate IsCharge(t: Tables, k: int, id: int) {
    k in t.fees && t.fees[k].ref == Some(id)
  }

  ghost predicate Charges(db: Db) {
    && (forall k, id :: IsCharge(db.t, k, id) ==>
          1 <= id < db.t.nextId && id !in db.owed && Matches(db.t, id, db.t.fees[k]))
    && (forall id :: id in db.owed ==> Matches(db.t, id, db.owed[id]))
  }

  ghost predicate ChargedOnce(t: Tables) {
    forall j, k, id :: IsCharge(t, j, id) && IsCharge(t, k, id) ==> j == k
  }

  ghost predicate Invariant(db: Db) {
    && Ids(db) && DistinctLogins(db.t) && DistinctKeys(db.t) && SyntheticLogins(db.t)
    && Equipped(db.t) && Charges(db) && ChargedOnce(db.t)
  }

  // ---- provisioning ------------------------------------------------------------------------------

  lemma AddedKeepsAccounts(db: Db, r: Request)
    requires Invariant(db) && Judge(db.t, r).Made?
    ensures var t := Added(db.t, r);
      DistinctLogins(t) && DistinctKeys(t) && SyntheticLogins(t) && Equipped(t)
  {
  }

  lemma AddedKeepsCharges(db: Db, r: Request)
    requires Invariant(db) && Judge(db.t, r).Made?
    ensures var d := db.(t := Added(db.t, r));
      Ids(d) && Charges(d) && ChargedOnce(d.t) && db.t.nextId !in d.owed
    ensures forall k :: !IsCharge(Added(db.t, r), k, db.t.nextId)
  {
    var t := Added(db.t, r);
    forall k, id | IsCharge(t, k, id) ensures 1 <= id < db.t.nextId && id !in db.owed && Matches(t, id, t.fees[k]) {
      assert IsCharge(db.t, k, id);
    }
    forall j, k, id | IsCharge(t, j, id) && IsCharge(t, k, id) ensures j == k {
      assert IsCharge(db.t, j, id) && IsCharge(db.t, k, id);
    }
  }

  /** Filing a charge no row answers to yet. */
  lemma PostedKeeps(db: Db, f: Fee)
    requires Invariant(db)
    requires f.ref.Some? ==>
      var id := f.ref.value;
      1 <= id < db.t.nextId && id !in db.owed && Matches(db.t, id, f) && forall k :: !IsCharge(db.t, k, id)
    ensures !Clashes(db.t, f)
    ensures Invariant(db.(t := Posted(db.t, f)))
  {
    if k :| f.ref.Some? && k in db.t.fees && db.t.fees[k].login == f.login && db.t.fees[k].ref == f.ref {
      assert IsCharge(db.t, k, f.ref.value);
      assert false;
    }
    var t := Posted(db.t, f);
    assert forall k, id :: IsCharge(t, k, id) ==> IsCharge(db.t, k, id) || (k == db.t.nextFee && f.ref == Some(id));
    assert forall k, id :: IsCharge(db.t, k, id) ==> t.fees[k] == db.t.fees[k];
  }

  lemma UsedUpIdKeeps(db: Db)
    requires Invariant(db)
    ensures Invariant(db.(t := db.t.(nextId := db.t.nextId + 1)))
  {
    var t := db.t.(nextId := db.t.nextId + 1);
    assert forall k, id :: IsCharge(t, k, id) <==> IsCharge(db.t, k, id);
  }

  lemma ProvisionKeeps(db: Db, r: Request)
    requires Invariant(db)
    ensures Invariant(Next(db, Provision(r)))
  {
    match Judge(db.t, r)
    case Replay =>
    case Refused(why) => UsedUpIdKeeps(db);
    case Crashed => UsedUpIdKeeps(db);
    case Made(id) =>
      AddedKeepsAccounts(db, r);
      AddedKeepsCharges(db, r);
      var d := db.(t := Added(db.t, r));
      if HasChallengeFee(d.t.accounts[id]) {
        PostedKeeps(d, ChallengeFee(id, d.t.accounts[id]));
      }
  }

  // ---- binding -----------------------------------------------------------------------------------

  lemma BindKeepsAccounts(db: Db, id: int, login: int)
    requires Invariant(db) && id in db.t.accounts && db.t.accounts[id].login.None? && !LoginTaken(db.t, login, id)
    ensures var t := WithLogin(db.t, id, login);
      DistinctLogins(t) && DistinctKeys(t) && SyntheticLogins(t) && Equipped(t)
  {
  }

  lemma BindKeeps(db: Db, id: int, seen: Option<int>, login: int)
    requires Invariant(db)
    ensures Invariant(AfterBind(db, id, seen, login))
  {
    if BindAnswer(db.t, id, seen, login).Bound? {
      BindKeepsAccounts(db, id, login);
      var d := AfterBind(db, id, seen, login);
      forall k, j | IsCharge(d.t, k, j) ensures 1 <= j < d.t.nextId && j !in d.owed && Matches(d.t, j, d.t.fees[k]) {
        assert IsCharge(db.t, k, j);
      }
      forall j | j in d.owed ensures Matches(d.t, j, d.owed[j]) {
      }
      forall j, k, i | IsCharge(d.t, j, i) && IsCharge(d.t, k, i) ensures j == k {
        assert IsCharge(db.t, j, i) && IsCharge(db.t, k, i);
      }
    }
  }

  lemma PostDeferredKeeps(db: Db, id: int)
    requires Invariant(db)
    ensures Invariant(Next(db, PostDeferred(id)))
  {
    if id in db.owed {
      LoseDeferredKeeps(db, id);
      forall k ensures !IsCharge(db.t, k, id) {
      }
      PostedKeeps(db.(owed := db.owed - {id}), db.owed[id]);
    }
  }

  lemma LoseDeferredKeeps(db: Db, id: int)
    requires Invariant(db)
    ensures Invariant(Next(db, LoseDeferred(id)))
  {
  }

  lemma DropKeeps(db: Db, user: int, k: int)
    requires Invariant(db)
    ensures Invariant(Next(db, DropFee(user, k)))
  {
    var t := WithoutFee(db.t, user, k);
    assert forall j, id :: IsCharge(t, j, id) ==> IsCharge(db.t, j, id);
  }

  lemma DeleteKeeps(db: Db, user: int, id: int, seen: Option<int>)
    requires Invariant(db)
    ensures Invariant(Next(db, DeleteAccount(user, id, seen)))
  {
    var t := Deleted(db.t, user, id, seen);
    assert forall j, i :: IsCharge(t, j, i) ==> IsCharge(db.t, j, i) && t.fees[j] == db.t.fees[j];
  }

  lemma StepKeeps(db: Db, s: Step)
    requires Invariant(db)
    ensures Invariant(Next(db, s))
  {
    match s
    case Provision(r) => ProvisionKeeps(db, r);
    case Bind(id, seen, login) => BindKeeps(db, id, seen, login);
    case PostDeferred(id) => PostDeferredKeeps(db, id);
    case LoseDeferred(id) => LoseDeferredKeeps(db, id);
    case AddFee(login, user, date, amount, kind) => PostedKeeps(db, Fee(login, user, date, amount, kind, None));
    case DropFee(user, k) => DropKeeps(db, user, k);
    case DeleteAccount(user, id, seen) => DeleteKeeps(db, user, id, seen);
  }

  /** Over any interleaving: logins and keys stay distinct, charges match their accounts, none is filed twice. */
  lemma {:induction false} EveryRun(db: Db, steps: seq<Step>)
    requires Invariant(db)
    ensures Invariant(After(db, steps))
  {
    if steps != [] {
      EveryRun(db, steps[..|steps| - 1]);
      StepKeeps(After(db, steps[..|steps| - 1]), steps[|steps| - 1]);
    }
  }

  // ---- accounts and their logins ------------------------------------------------------------------

  /** The same account, except that a pending one may have got its login. */
  predicate Continues(before: Account, after: Account) {
    before == after.(login := before.login) && (before.login.Some? ==> after == before)
  }

  /** No account that was not there before its id was drawn, and each still there goes on. */
  ghost predicate AccountsGoOn(t: Tables, after: Tables) {
    && t.nextId <= after.nextId
    && forall id :: id in after.accounts && id < t.nextId ==>
         id in t.accounts && Continues(t.accounts[id], after.accounts[id])
  }

  lemma AccountsStep(db: Db, s: Step)
    ensures AccountsGoOn(db.t, Next(db, s).t)
  {
    match s
    case Provision(r) => ProvisionGoesOn(db.t, r);
    case Bind(id, seen, login) => BindGoesOn(db, id, seen, login);
    case PostDeferred(id) =>
    case LoseDeferred(id) =>
    case AddFee(login, user, date, amount, kind) =>
    case DropFee(user, k) =>
    case DeleteAccount(user, id, seen) =>
  }

  lemma ProvisionGoesOn(t: Tables, r: Request)
    ensures AccountsGoOn(t, Provisioned(t, r))
  {
    match Judge(t, r)
    case Replay =>
    case Refused(why) =>
    case Crashed =>
    case Made(id) => assert Provisioned(t, r).accounts == Added(t, r).accounts;
  }

  lemma BindGoesOn(db: Db, id: int, seen: Option<int>, login: int)
    ensures AccountsGoOn(db.t, AfterBind(db, id, seen, login).t)
  {
  }

  /** Over any run an account is deleted for good or stays itself, and a login once set never changes. */
  lemma {:induction false} LoginIsPermanent(db: Db, steps: seq<Step>, id: int)
    requires Invariant(db) && id < db.t.nextId
    ensures var t := After(db, steps).t;
      && db.t.nextId <= t.nextId
      && (id in t.accounts ==> id in db.t.accounts && Continues(db.t.accounts[id], t.accounts[id]))
  {
    if steps != [] {
      var init := steps[..|steps| - 1];
      LoginIsPermanent(db, init, id);
      EveryRun(db, init);
      AccountsStep(After(db, init), steps[|steps| - 1]);
    }
  }

  /** A bind says ok or bound exactly when the account ends up on that login, however stale the caller's row. */
  lemma BindTellsTheTruth(t: Tables, id: int, seen: Option<int>, login: int)
    requires id in t.accounts && TruthfulRead(t, id, seen)
    ensures var a, after := BindAnswer(t, id, seen, login), Binding(t, id, seen, login).accounts[id];
      && ((a.Ok? || a.Bound?) <==> after.login == Some(login))
      && (a.Bound? <==> t.accounts[id].login.None? && after.login.Some?)
      && (a.Taken? <==> t.accounts[id].login.None? && LoginTaken(t, login, id))
  {
  }

  /** Only one bind of an account ever wins. */
  lemma BoundOnlyOnce(db: Db, id: int, seen: Option<int>, login: int, steps: seq<Step>, seenLater: Option<int>,
                      other: int)
    requires Invariant(db) && BindAnswer(db.t, id, seen, login).Bound?
    ensures !BindAnswer(After(Next(db, Bind(id, seen, login)), steps).t, id, seenLater, other).Bound?
  {
    StepKeeps(db, Bind(id, seen, login));
    LoginIsPermanent(Next(db, Bind(id, seen, login)), steps, id);
  }

  /** Asking again with the same key, whatever happened meanwhile, replays as long as the account is there. */
  lemma RetryIsReplay(db: Db, r: Request, steps: seq<Step>, again: Request)
    requires Invariant(db) && r.key.Some? && Judge(db.t, r).Made?
    requires again.user == r.user && again.key == r.key
    requires db.t.nextId in After(Next(db, Provision(r)), steps).t.accounts
    ensures var later := After(Next(db, Provision(r)), steps).t;
      Judge(later, again) == Replay && Provisioned(later, again) == later
  {
    StepKeeps(db, Provision(r));
    var made, id := Next(db, Provision(r)), db.t.nextId;
    LoginIsPermanent(made, steps, id);
    var a := After(made, steps).t.accounts[id];
    assert made.t.accounts[id].user == r.user && made.t.accounts[id].key == r.key;
    assert a.user == again.user && a.key == Some(again.key.value);
  }

  // ---- synthetic logins -----------------------------------------------------------------------------

  /** An account without a broker is refused its synthetic login only if a broker account holds that very number. */
  lemma SyntheticCollidesExactly(db: Db)
    requires Invariant(db)
    ensures LoginTaken(db.t, -db.t.nextId, db.t.nextId) <==>
      exists id :: id in db.t.accounts && Synced(db.t.accounts[id].how) && db.t.accounts[id].login == Some(-db.t.nextId)
  {
    if id :| id in db.t.accounts && id != db.t.nextId && db.t.accounts[id].login == Some(-db.t.nextId) {
      if !Synced(db.t.accounts[id].how) {
        assert false;
      }
    }
  }

  predicate PositiveOrNone(login: Option<int>) {
    login.Some? ==> login.value > 0
  }

  /** Broker logins handed in by this step are positive. */
  predicate PositiveLogins(s: Step) {
    match s
    case Provision(r) => PositiveOrNone(r.explicit) && PositiveOrNone(r.credentialLogin)
    case Bind(id, seen, login) => login > 0
    case _ => true
  }

  ghost predicate PositiveBrokers(t: Tables) {
    forall id :: id in t.accounts && Synced(t.accounts[id].how) ==> PositiveOrNone(t.accounts[id].login)
  }

  lemma PositiveStep(db: Db, s: Step)
    requires Invariant(db) && PositiveBrokers(db.t) && PositiveLogins(s)
    ensures PositiveBrokers(Next(db, s).t)
  {
  }

  /** With positive broker logins, no run ever refuses an account its synthetic login. */
  lemma {:induction false} SyntheticNeverCollides(db: Db, steps: seq<Step>, r: Request)
    requires Invariant(db) && PositiveBrokers(db.t)
    requires forall s :: s in steps ==> PositiveLogins(s)
    ensures PositiveBrokers(After(db, steps).t) && !Judge(After(db, steps).t, r).Crashed?
  {
    if steps != [] {
      var init := steps[..|steps| - 1];
      SyntheticNeverCollides(db, init, r);
      EveryRun(db, init);
      PositiveStep(After(db, init), steps[|steps| - 1]);
    }
    EveryRun(db, steps);
    SyntheticCollidesExactly(After(db, steps));
  }

  // ---- the charge -----------------------------------------------------------------------------------

  ghost predicate Filed(t: Tables, id: int) {
    exists k :: IsCharge(t, k, id)
  }

  /** This step writes a charge for account `id`. */
  ghost predicate Files(db: Db, s: Step, id: int) {
    exists k :: IsCharge(Next(db, s).t, k, id) && !IsCharge(db.t, k, id)
  }

  ghost function TimesFiled(db: Db, steps: seq<Step>, id: int): nat {
    if steps == [] then 0
    else
      var init := steps[..|steps| - 1];
      TimesFiled(db, init, id) + if Files(After(db, init), steps[|steps| - 1], id) then 1 else 0
  }

  /** A charge can still come: the account is yet to be made, pending, or its deferred charge is on its way. */
  predicate MayStillFile(db: Db, id: int) {
    id >= db.t.nextId || (id in db.t.accounts && db.t.accounts[id].login.None?) || id in db.owed
  }

  lemma FilingStep(db: Db, s: Step, id: int)
    requires Invariant(db)
    ensures MayStillFile(Next(db, s), id) ==> MayStillFile(db, id) && !Files(db, s, id)
    ensures Files(db, s, id) ==> MayStillFile(db, id)
  {
  }

  /** Whatever the interleaving, deletions included, one account's cost is written at most once ever. */
  lemma {:induction false} FiledAtMostOnce(db: Db, steps: seq<Step>, id: int)
    requires Invariant(db)
    ensures TimesFiled(db, steps, id) <= 1
    ensures MayStillFile(After(db, steps), id) ==> TimesFiled(db, steps, id) == 0
    ensures !MayStillFile(db, id) ==> TimesFiled(db, steps, id) == 0 && !MayStillFile(After(db, steps), id)
  {
    if steps != [] {
      var init := steps[..|steps| - 1];
      FiledAtMostOnce(db, init, id);
      EveryRun(db, init);
      FilingStep(After(db, init), steps[|steps| - 1], id);
    }
  }

  /** The deferred post for `id` fails, or its owner deletes the row. */
  predicate Loses(db: Db, s: Step, id: int) {
    match s
    case LoseDeferred(j) => j == id && id in db.owed
    case DropFee(user, k) => IsCharge(db.t, k, id) && db.t.fees[k].user == user
    case _ => false
  }

  predicate Lost(db: Db, steps: seq<Step>, id: int) {
    steps != [] && var init := steps[..|steps| - 1];
      Lost(db, init, id) || Loses(After(db, init), steps[|steps| - 1], id)
  }

  /** An account that owes a charge has it filed, on its way or lost, never two of the three. */
  ghost predicate Accounted(db: Db, id: int, lost: bool) {
    if id in db.t.accounts && HasChallengeFee(db.t.accounts[id])
    then (if lost then !Filed(db.t, id) && id !in db.owed else (Filed(db.t, id) <==> id !in db.owed))
    else if id in db.t.accounts || id >= db.t.nextId then !lost && !Filed(db.t, id) && id !in db.owed
    else true
  }

  lemma SameRows(t: Tables, after: Tables)
    requires after.fees == t.fees
    ensures forall id :: Filed(after, id) <==> Filed(t, id)
  {
    assert forall k, id :: IsCharge(after, k, id) <==> IsCharge(t, k, id);
  }

  lemma FiledAfterPost(db: Db, f: Fee)
    requires Ids(db) && !Clashes(db.t, f)
    ensures forall id :: Filed(Posted(db.t, f), id) <==> Filed(db.t, id) || f.ref == Some(id)
  {
    var t := Posted(db.t, f);
    assert forall k, id :: IsCharge(t, k, id) <==> IsCharge(db.t, k, id) || (k == db.t.nextFee && f.ref == Some(id));
    forall id | f.ref == Some(id) ensures Filed(t, id) {
      assert IsCharge(t, db.t.nextFee, id);
    }
    forall id | Filed(db.t, id) ensures Filed(t, id) {
      var k :| IsCharge(db.t, k, id);
      assert IsCharge(t, k, id);
    }
  }

  lemma FiledAfterProvision(db: Db, r: Request)
    requires Invariant(db)
    ensures var t := Provisioned(db.t, r);
      forall id :: Filed(t, id) <==> (Filed(db.t, id)
        || (Judge(db.t, r).Made? && id == db.t.nextId && HasChallengeFee(t.accounts[id])))
  {
    var added := Added(db.t, r);
    if Judge(db.t, r).Made? && HasChallengeFee(added.accounts[db.t.nextId]) {
      AddedKeepsAccounts(db, r);
      AddedKeepsCharges(db, r);
      SameRows(db.t, added);
      var f := ChallengeFee(db.t.nextId, added.accounts[db.t.nextId]);
      PostedKeeps(db.(t := added), f);
      FiledAfterPost(db.(t := added), f);
    } else {
      SameRows(db.t, Provisioned(db.t, r));
    }
  }

  lemma NotFiledYet(db: Db, id: int)
    requires Invariant(db) && (id >= db.t.nextId || id in db.owed)
    ensures !Filed(db.t, id)
  {
  }

  lemma FiledAfterDeferred(db: Db, j: int)
    requires Invariant(db) && j in db.owed
    ensures forall id :: Filed(Posted(db.t, db.owed[j]), id) <==> Filed(db.t, id) || id == j
  {
    forall k ensures !IsCharge(db.t, k, j) {
    }
    LoseDeferredKeeps(db, j);
    PostedKeeps(db.(owed := db.owed - {j}), db.owed[j]);
    FiledAfterPost(db, db.owed[j]);
  }

  lemma FiledAfterDrop(db: Db, user: int, k: int, id: int)
    requires Invariant(db)
    ensures Filed(WithoutFee(db.t, user, k), id) <==> Filed(db.t, id) && !Loses(db, DropFee(user, k), id)
  {
    var t := WithoutFee(db.t, user, k);
    assert forall j :: IsCharge(t, j, id) ==> IsCharge(db.t, j, id);
    if j :| IsCharge(db.t, j, id) {
      assert j != k ==> IsCharge(t, j, id);
    }
  }

  lemma FiledAfterDelete(db: Db, user: int, j: int, seen: Option<int>, id: int)
    requires Invariant(db) && TruthfulRead(db.t, j, seen)
    requires id in db.t.accounts && (id != j || seen.None?)
    ensures Filed(Deleted(db.t, user, j, seen), id) <==> Filed(db.t, id)
  {
    var t := Deleted(db.t, user, j, seen);
    assert forall k :: IsCharge(t, k, id) ==> IsCharge(db.t, k, id);
    if k :| IsCharge(db.t, k, id) {
      assert IsCharge(t, k, id);
    }
  }

  lemma AccountedProvision(db: Db, r: Request, id: int, lost: bool)
    requires Invariant(db) && Accounted(db, id, lost)
    ensures Accounted(Next(db, Provision(r)), id, lost)
  {
    FiledAfterProvision(db, r);
  }

  lemma AccountedBind(db: Db, j: int, seen: Option<int>, login: int, id: int, lost: bool)
    requires Invariant(db) && Accounted(db, id, lost)
    ensures Accounted(AfterBind(db, j, seen, login), id, lost)
  {
    SameRows(db.t, Binding(db.t, j, seen, login));
  }

  lemma AccountedPost(db: Db, j: int, id: int, lost: bool)
    requires Invariant(db) && Accounted(db, id, lost)
    ensures Accounted(Next(db, PostDeferred(j)), id, lost)
  {
    if j in db.owed {
      FiledAfterDeferred(db, j);
    }
  }

  lemma AccountedDelete(db: Db, user: int, j: int, seen: Option<int>, id: int, lost: bool)
    requires Invariant(db) && Accounted(db, id, lost)
    ensures Accounted(Next(db, DeleteAccount(user, j, seen)), id, lost)
  {
    if TruthfulRead(db.t, j, seen) && id in db.t.accounts && id != j {
      FiledAfterDelete(db, user, j, seen, id);
    } else if id >= db.t.nextId {
      NotFiledYet(db, id);
      forall k ensures !IsCharge(Deleted(db.t, user, j, seen), k, id) {
        assert !IsCharge(db.t, k, id);
      }
    }
  }

  lemma AccountedStep(db: Db, s: Step, id: int, lost: bool)
    requires Invariant(db) && Accounted(db, id, lost)
    ensures Accounted(Next(db, s), id, lost || Loses(db, s, id))
  {
    match s
    case Provision(r) => AccountedProvision(db, r, id, lost);
    case Bind(j, seen, login) => AccountedBind(db, j, seen, login, id, lost);
    case PostDeferred(j) => AccountedPost(db, j, id, lost);
    case LoseDeferred(j) =>
      SameRows(db.t, Next(db, s).t);
      if j in db.owed {
        NotFiledYet(db, j);
      }
    case AddFee(login, user, date, amount, kind) => FiledAfterPost(db, Fee(login, user, date, amount, kind, None));
    case DropFee(user, k) => FiledAfterDrop(db, user, k, id);
    case DeleteAccount(user, j, seen) => AccountedDelete(db, user, j, seen, id, lost);
  }

  lemma {:induction false} AccountedRun(steps: seq<Step>, id: int)
    ensures Accounted(After(Empty, steps), id, Lost(Empty, steps, id))
  {
    if steps != [] {
      var init := steps[..|steps| - 1];
      AccountedRun(init, id);
      EveryRun(Empty, init);
      AccountedStep(After(Empty, init), steps[|steps| - 1], id, Lost(Empty, init, id));
    }
  }

  /** Once an account with a cost has its login and no charge is on its way, exactly one row charges it —
      exactly when the post got through and nobody deleted the row. A pending account, or one without a
      cost, is never charged. */
  lemma ChargedExactlyOnce(steps: seq<Step>, id: int)
    requires id in After(Empty, steps).t.accounts && id !in After(Empty, steps).owed
    ensures var t := After(Empty, steps).t;
      && (Filed(t, id) <==> HasChallengeFee(t.accounts[id]) && !Lost(Empty, steps, id))
      && (forall k :: IsCharge(t, k, id) ==> t.fees[k] == ChallengeFee(id, t.accounts[id]))
      && (forall j, k :: IsCharge(t, j, id) && IsCharge(t, k, id) ==> j == k)
  {
    EveryRun(Empty, steps);
    AccountedRun(steps, id);
  }

  // ---- charges that outlive their account -------------------------------------------------------------

  ghost predicate NoOrphans(t: Tables) {
    forall k, id :: IsCharge(t, k, id) ==> id in t.accounts
  }

  /** The deferred write lands after the account was deleted. */
  predicate LateCharge(db: Db, s: Step) {
    s.PostDeferred? && s.id in db.owed && s.id !in db.t.accounts
  }

  /** The deletion read the login before the bind that charged the account. */
  ghost predicate StaleDelete(db: Db, s: Step) {
    s.DeleteAccount? && s.id in db.t.accounts && db.t.accounts[s.id].user == s.user && s.seen.None? && Filed(db.t, s.id)
  }

  /** A charge outlives its account through these two races and no other way. */
  lemma OrphansAriseExactly(db: Db, s: Step)
    requires Invariant(db) && NoOrphans(db.t)
    ensures NoOrphans(Next(db, s).t) <==> !LateCharge(db, s) && !StaleDelete(db, s)
  {
    OrphansByFiling(db.t);
    OrphansByFiling(Next(db, s).t);
    match s
    case Provision(r) => FiledAfterProvision(db, r);
    case Bind(j, seen, login) => SameRows(db.t, Binding(db.t, j, seen, login));
    case PostDeferred(j) =>
      if j in db.owed {
        FiledAfterDeferred(db, j);
      }
    case LoseDeferred(j) =>
    case AddFee(login, user, date, amount, kind) => FiledAfterPost(db, Fee(login, user, date, amount, kind, None));
    case DropFee(user, k) =>
      assert forall j, id :: IsCharge(Next(db, s).t, j, id) ==> IsCharge(db.t, j, id);
    case DeleteAccount(user, j, seen) => OrphansByDelete(db, user, j, seen);
  }

  lemma OrphansByFiling(t: Tables)
    ensures NoOrphans(t) <==> forall id :: Filed(t, id) ==> id in t.accounts
  {
    if forall id :: Filed(t, id) ==> id in t.accounts {
      forall k, id | IsCharge(t, k, id) ensures id in t.accounts {
        assert Filed(t, id);
      }
    }
  }

  lemma OrphansByDelete(db: Db, user: int, j: int, seen: Option<int>)
    requires Invariant(db) && NoOrphans(db.t)
    ensures NoOrphans(Next(db, DeleteAccount(user, j, seen)).t) <==> !StaleDelete(db, DeleteAccount(user, j, seen))
  {
    var t := Next(db, DeleteAccount(user, j, seen)).t;
    assert forall k, id :: IsCharge(t, k, id) ==> IsCharge(db.t, k, id) && t.fees[k] == db.t.fees[k];
    if k :| StaleDelete(db, DeleteAccount(user, j, seen)) && IsCharge(db.t, k, j) {
      assert IsCharge(t, k, j);
    }
  }

  const Late: seq<Step> := [
    Provision(Request(7, Ea, None, Some(99.0), true, false, true, None, false, None, 0)),
    Bind(1, None, 500), DeleteAccount(7, 1, Some(500)), PostDeferred(1)]

  /** The first race happens: the row of a deleted account is filed after it is gone. */
  lemma FeeOutlivesItsAccount()
    ensures Filed(After(Empty, Late).t, 1) && 1 !in After(Empty, Late).t.accounts
  {
    assert Late[..3] == [Late[0], Late[1], Late[2]] && Late[..3][..2] == [Late[0], Late[1]];
    assert Late[..3][..2][..1] == [Late[0]] && Late[..3][..2][..1][..0] == [];
    var one := Next(Empty, Late[0]);
    assert After(Empty, [Late[0]]) == one;
    var two := Next(one, Late[1]);
    assert After(Empty, [Late[0], Late[1]]) == two;
    var three := Next(two, Late[2]);
    assert After(Empty, Late[..3]) == three;
    var end := Next(three, Late[3]);
    assert After(Empty, Late) == end;
    assert IsCharge(end.t, 1, 1);
  }
}
