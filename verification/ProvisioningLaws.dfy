/** What each provisioning step answers and writes, row by row and field by field. */
module ProvisioningLaws {
  import opened Prelude
  import opened Provisioning
  import opened ProvisioningRuns

  // ---- who is in the way ---------------------------------------------------------------------------

  ghost predicate OwnsKey(t: Tables, id: int, user: int, key: Option<string>) {
    key.Some? && id in t.accounts && t.accounts[id].user == user && t.accounts[id].key == key
  }

  ghost predicate HoldsKey(t: Tables, id: int, key: Option<string>) {
    key.Some? && id in t.accounts && t.accounts[id].key == key
  }

  ghost predicate HoldsLogin(t: Tables, id: int, login: int) {
    id in t.accounts && t.accounts[id].login == Some(login)
  }

  /** Some account other than the one about to be made has this login. */
  ghost predicate HeldByOther(t: Tables, login: int) {
    exists id :: id != t.nextId && HoldsLogin(t, id, login)
  }

  /** The login an account starts on: the one named, or an auto-sync credential's. */
  predicate StartsOn(r: Request, login: Option<int>) {
    if r.explicit.Some? then login == r.explicit
    else if r.how == AutoSync && r.hasCredential then login == r.credentialLogin
    else login == None
  }

  predicate NeedsBroker(m: Method) {
    m == AutoSync || m == Ea
  }

  /** Every answer and its cause, in the order the code asks. */
  ghost predicate Answers(t: Tables, r: Request, v: Verdict) {
    var replayed := exists id :: OwnsKey(t, id, r.user, r.key);
    var shut := r.prop && !r.joinable;
    var loginHeld := exists l :: StartsOn(r, Some(l)) && HeldByOther(t, l);
    var keyHeld := exists id :: HoldsKey(t, id, r.key);
    var numberHeld := !NeedsBroker(r.how) && HeldByOther(t, -t.nextId);
    && (v == Replay <==> replayed)
    && (v == Refused(GroupConflict) <==> !replayed && shut)
    && (v == Refused(LoginConflict) <==> !replayed && !shut && loginHeld)
    && (v == Refused(KeyConflict) <==> !replayed && !shut && !loginHeld && keyHeld)
    && (v == Crashed <==> !replayed && !shut && !loginHeld && !keyHeld && numberHeld)
    && (v.Made? ==> v.id == t.nextId)
  }

  lemma VerdictAnswers(t: Tables, r: Request)
    ensures Answers(t, r, Judge(t, r))
  {
    var start := InitialLogin(r);
    assert StartsOn(r, start);
    assert (exists id :: OwnsKey(t, id, r.user, r.key)) <==> r.key.Some? && Replays(t, r.user, r.key.value) by {
      if id :| OwnsKey(t, id, r.user, r.key) {
        assert t.accounts[id].key == Some(r.key.value);
      }
      if id :| (r.key.Some? && id in t.accounts && t.accounts[id].user == r.user
                && t.accounts[id].key == Some(r.key.value)) {
        assert OwnsKey(t, id, r.user, r.key);
      }
    }
    KeyHeld(t, r.key);
    LoginHeld(t, -t.nextId);
    if start.Some? {
      LoginHeld(t, start.value);
    }
  }

  lemma KeyHeld(t: Tables, key: Option<string>)
    ensures (exists id :: HoldsKey(t, id, key)) <==> key.Some? && KeyTaken(t, key.value)
  {
    if id :| HoldsKey(t, id, key) {
      assert t.accounts[id].key == Some(key.value);
    }
    if id :| key.Some? && id in t.accounts && t.accounts[id].key == Some(key.value) {
      assert HoldsKey(t, id, key);
    }
  }

  lemma LoginHeld(t: Tables, login: int)
    ensures forall except :: LoginTaken(t, login, except) <==> exists id :: id != except && HoldsLogin(t, id, login)
  {
    forall except ensures LoginTaken(t, login, except) <==> exists id :: id != except && HoldsLogin(t, id, login) {
      if id :| id in t.accounts && id != except && t.accounts[id].login == Some(login) {
        assert HoldsLogin(t, id, login);
      }
      if id :| id != except && HoldsLogin(t, id, login) {
        assert id in t.accounts && id != except && t.accounts[id].login == Some(login);
      }
    }
  }

  // ---- the charge ----------------------------------------------------------------------------------

  /** The row that charges account `id`: its positive cost, to its login and owner, dated by its creation, an
      activation for a funded account and an evaluation otherwise, referring to the account. */
  predicate Charges(f: Fee, id: int, a: Account) {
    && f.amount > 0.0 && a.cost == Some(f.amount)
    && a.login == Some(f.login) && f.user == a.user && f.date == a.createdAt
    && (if a.funded then f.kind == Activation else f.kind == Evaluation)
    && f.ref == Some(id)
  }

  /** A cost above zero and a login to file it under. */
  predicate Owes(a: Account) {
    a.cost.Some? && a.cost.value > 0.0 && a.login.Some?
  }

  lemma ChargeIs(id: int, a: Account)
    ensures HasChallengeFee(a) <==> Owes(a)
    ensures HasChallengeFee(a) ==> forall f :: Charges(f, id, a) <==> f == ChallengeFee(id, a)
  {
    if HasChallengeFee(a) {
      forall f ensures Charges(f, id, a) <==> f == ChallengeFee(id, a) {
      }
    }
  }

  /** Row `k` was filed for account `id`. */
  predicate FiledFor(t: Tables, k: int, id: int) {
    k in t.fees && t.fees[k].ref == Some(id)
  }

  /** At rest an account that owes its cost is charged by exactly one row, with its own figures, exactly when
      the charge was not lost; an account that owes nothing is charged by none. */
  lemma ChargedInFull(steps: seq<Step>, id: int)
    requires id in After(Empty, steps).t.accounts && id !in After(Empty, steps).owed
    ensures var t := After(Empty, steps).t;
      && ((exists k :: FiledFor(t, k, id)) <==> Owes(t.accounts[id]) && !Lost(Empty, steps, id))
      && (forall k :: FiledFor(t, k, id) ==> Charges(t.fees[k], id, t.accounts[id]))
      && (forall j, k :: FiledFor(t, j, id) && FiledFor(t, k, id) ==> j == k)
  {
    var t := After(Empty, steps).t;
    ChargedExactlyOnce(steps, id);
    ChargeIs(id, t.accounts[id]);
    assert forall k :: FiledFor(t, k, id) <==> IsCharge(t, k, id);
  }

  // ---- what each step writes -------------------------------------------------------------------------

  predicate SameRows(t: Tables, after: Tables) {
    && after.accounts == t.accounts && after.challenged == t.challenged && after.jobs == t.jobs
    && after.credentials == t.credentials
  }

  /** The fee is inserted under the next number unless a row has its login and its reference. */
  ghost predicate Inserts(t: Tables, f: Fee, fees: map<int, Fee>, nextFee: int) {
    if exists k :: k in t.fees && f.ref.Some? && t.fees[k].login == f.login && t.fees[k].ref == f.ref
    then fees == t.fees && nextFee == t.nextFee
    else fees == t.fees[t.nextFee := f] && nextFee == t.nextFee + 1
  }

  /** The row of a new account: a synthetic login, minus its id, when no broker stands behind it. */
  ghost predicate IsNewRow(r: Request, id: int, a: Account) {
    && a.user == r.user && a.how == r.how && a.key == r.key && a.cost == r.cost && a.prop == r.prop
    && a.funded == r.funded && a.createdAt == r.now
    && (if NeedsBroker(r.how) then StartsOn(r, a.login) else a.login == Some(-id))
  }

  predicate JoinsIf(was: set<int>, id: int, joins: bool, now: set<int>) {
    now == if joins then was + {id} else was
  }

  ghost predicate Creates(t: Tables, r: Request, after: Tables) {
    var id := t.nextId;
    && after.nextId == id + 1
    && id in after.accounts && after.accounts == t.accounts[id := after.accounts[id]]
    && IsNewRow(r, id, after.accounts[id])
    && JoinsIf(t.challenged, id, r.prop, after.challenged)
    && JoinsIf(t.jobs, id, r.how == AutoSync, after.jobs)
    && JoinsIf(t.credentials, id, r.how == AutoSync && r.hasCredential, after.credentials)
    && (if Owes(after.accounts[id])
        then exists f :: Charges(f, id, after.accounts[id]) && Inserts(t, f, after.fees, after.nextFee)
        else after.fees == t.fees && after.nextFee == t.nextFee)
  }

  ghost predicate Provisions(t: Tables, r: Request, v: Verdict, after: Tables) {
    match v
    case Replay => after == t
    case Refused(GroupConflict) => after == t
    case Refused(_) => after == t.(nextId := t.nextId + 1)
    case Crashed => after == t.(nextId := t.nextId + 1)
    case Made(_) => Creates(t, r, after)
  }

  lemma PostedInserts(t: Tables, f: Fee)
    ensures var after := Posted(t, f);
      Inserts(t, f, after.fees, after.nextFee) && SameRows(t, after) && after.nextId == t.nextId
  {
  }

  lemma MadeCreates(t: Tables, r: Request)
    requires Judge(t, r).Made?
    ensures Creates(t, r, Provisioned(t, r))
  {
    var id, added := t.nextId, Added(t, r);
    var a := added.accounts[id];
    ChargeIs(id, a);
    if HasChallengeFee(a) {
      var f := ChallengeFee(id, a);
      PostedInserts(added, f);
      assert Charges(f, id, a);
      assert Inserts(t, f, Posted(added, f).fees, Posted(added, f).nextFee);
    }
  }

  /** The whole of a provisioning: its answer, and every row it writes or leaves alone. */
  lemma ProvisioningIs(t: Tables, r: Request)
    ensures Answers(t, r, Judge(t, r)) && Provisions(t, r, Judge(t, r), Provisioned(t, r))
  {
    VerdictAnswers(t, r);
    if Judge(t, r).Made? {
      MadeCreates(t, r);
    }
  }

  /** A bind wins exactly for a pending account, read as pending, whose new login no other account holds; it
      sets that login, puts the charge that is now owed under way, and does nothing else. */
  ghost predicate Binds(db: Db, id: int, seen: Option<int>, login: int, after: Db) {
    if seen == None && id in db.t.accounts && db.t.accounts[id].login == None
       && !(exists other :: other != id && HoldsLogin(db.t, other, login))
    then
      var a := db.t.accounts[id].(login := Some(login));
      && after.t == db.t.(accounts := db.t.accounts[id := a])
      && (if Owes(a) then exists f :: Charges(f, id, a) && after.owed == db.owed[id := f] else after.owed == db.owed)
    else after == db
  }

  lemma BindIs(db: Db, id: int, seen: Option<int>, login: int)
    ensures Binds(db, id, seen, login, AfterBind(db, id, seen, login))
  {
    LoginHeld(db.t, login);
    if BindAnswer(db.t, id, seen, login).Bound? {
      var a := db.t.accounts[id].(login := Some(login));
      ChargeIs(id, a);
      if HasChallengeFee(a) {
        assert Charges(ChallengeFee(id, a), id, a);
      }
    }
  }

  /** What a bind says, from the row and the login read before. */
  ghost predicate Says(t: Tables, id: int, seen: Option<int>, login: int, a: Answer) {
    var pending := seen == None && id in t.accounts && t.accounts[id].login == None;
    var held := exists other :: other != id && HoldsLogin(t, other, login);
    && (a == Bound <==> pending && !held)
    && (a == Taken <==> pending && held)
    && (a == Ok <==> seen == Some(login) || (seen == None && HoldsLogin(t, id, login)))
  }

  lemma BindSays(t: Tables, id: int, seen: Option<int>, login: int)
    ensures Says(t, id, seen, login, BindAnswer(t, id, seen, login))
  {
    LoginHeld(t, login);
  }

  /** A deletion takes the owned account, its challenge, job and credential, and every fee filed under the
      login read beforehand; nobody else's account goes, and no other fee. */
  ghost predicate Deletes(t: Tables, user: int, id: int, seen: Option<int>, after: Tables) {
    if !(id in t.accounts && t.accounts[id].user == user) then after == t
    else
      && after.nextId == t.nextId && after.nextFee == t.nextFee
      && after.accounts == t.accounts - {id} && after.challenged == t.challenged - {id}
      && after.jobs == t.jobs - {id} && after.credentials == t.credentials - {id}
      && (forall k :: k in after.fees <==> k in t.fees && Some(t.fees[k].login) != seen)
      && (forall k :: k in after.fees ==> after.fees[k] == t.fees[k])
  }

  lemma DeletionIs(t: Tables, user: int, id: int, seen: Option<int>)
    ensures Deletes(t, user, id, seen, Deleted(t, user, id, seen))
  {
  }

  /** A fee typed in by hand refers to no account; a deferred charge is filed once and is then no longer owed,
      or is lost. */
  lemma FeeSteps(db: Db, id: int, login: int, user: int, date: int, amount: real, kind: FeeType)
    ensures var after := Next(db, AddFee(login, user, date, amount, kind));
      after == db.(t := db.t.(fees := db.t.fees[db.t.nextFee := Fee(login, user, date, amount, kind, None)],
                              nextFee := db.t.nextFee + 1))
    ensures var after := Next(db, PostDeferred(id));
      && after.owed == db.owed - {id} && SameRows(db.t, after.t) && after.t.nextId == db.t.nextId
      && (if id in db.owed then Inserts(db.t, db.owed[id], after.t.fees, after.t.nextFee) else after.t == db.t)
    ensures Next(db, LoseDeferred(id)) == db.(owed := db.owed - {id})
  {
    if id in db.owed {
      PostedInserts(db.t, db.owed[id]);
    } else {
      assert db.owed - {id} == db.owed;
    }
  }

  /** The caller's own fee row and no other. */
  ghost predicate DropsFee(t: Tables, user: int, k: int, after: Tables) {
    && after == t.(fees := after.fees)
    && (forall j :: j in after.fees <==> j in t.fees && !(j == k && t.fees[j].user == user))
    && (forall j :: j in after.fees ==> after.fees[j] == t.fees[j])
  }

  lemma FeeDeletionIs(t: Tables, user: int, k: int)
    ensures DropsFee(t, user, k, WithoutFee(t, user, k))
  {
  }
}
