/** Adding an account, binding its login and charging its challenge cost, one committed write at a time. */
module Provisioning {
  import opened Prelude

  datatype Method = AutoSync | Ea | File | Manual

  predicate Synced(m: Method) {
    m.AutoSync? || m.Ea?
  }

  datatype Account = Account(
    user: int, how: Method, login: Option<int>, key: Option<string>, cost: Option<real>,
    prop: bool, funded: bool, createdAt: int)

  datatype FeeType = Evaluation | Activation | Reset | Other

  /** A fee row is filed under a login; `ref` is the account id inside `provision:<id>`. */
  datatype Fee = Fee(login: int, user: int, date: int, amount: real, kind: FeeType, ref: Option<int>)

  datatype Tables = Tables(
    accounts: map<int, Account>, fees: map<int, Fee>, nextId: int, nextFee: int,
    challenged: set<int>, jobs: set<int>, credentials: set<int>)

  // ---- the challenge cost --------------------------------------------------------------------

  predicate HasChallengeFee(a: Account) {
    a.cost.Some? && a.cost.value > 0.0 && a.login.Some?
  }

  function ChallengeFee(id: int, a: Account): Fee
    requires HasChallengeFee(a)
  {
    Fee(a.login.value, a.user, a.createdAt, a.cost.value, if a.funded then Activation else Evaluation, Some(id))
  }

  predicate Clashes(t: Tables, f: Fee) {
    f.ref.Some? && exists k :: k in t.fees && t.fees[k].login == f.login && t.fees[k].ref == f.ref
  }

  /** INSERT … ON CONFLICT DO NOTHING. */
  function Posted(t: Tables, f: Fee): Tables {
    if Clashes(t, f) then t else t.(fees := t.fees[t.nextFee := f], nextFee := t.nextFee + 1)
  }

  // ---- provisioning --------------------------------------------------------------------------

  /** `joinable` is false when a named challenge cannot be locked for this user. */
  datatype Request = Request(
    user: int, how: Method, key: Option<string>, cost: Option<real>, prop: bool, funded: bool,
    joinable: bool, explicit: Option<int>, hasCredential: bool, credentialLogin: Option<int>, now: int)

  datatype Conflict = LoginConflict | KeyConflict | GroupConflict

  datatype Verdict = Replay | Refused(why: Conflict) | Crashed | Made(id: int)

  predicate LoginTaken(t: Tables, login: int, except: int) {
    exists id :: id in t.accounts && id != except && t.accounts[id].login == Some(login)
  }

  predicate KeyTaken(t: Tables, key: string) {
    exists id :: id in t.accounts && t.accounts[id].key == Some(key)
  }

  predicate Replays(t: Tables, user: int, key: string) {
    exists id :: id in t.accounts && t.accounts[id].user == user && t.accounts[id].key == Some(key)
  }

  function InitialLogin(r: Request): Option<int> {
    if r.explicit.Some? then r.explicit
    else if r.how.AutoSync? && r.hasCredential then r.credentialLogin else None
  }

  function NewAccount(r: Request, login: Option<int>): Account {
    Account(r.user, r.how, login, r.key, r.cost, r.prop, r.funded, r.now)
  }

  function Judge(t: Tables, r: Request): Verdict {
    if r.key.Some? && Replays(t, r.user, r.key.value) then Replay
    else if r.prop && !r.joinable then Refused(GroupConflict)
    else if InitialLogin(r).Some? && LoginTaken(t, InitialLogin(r).value, t.nextId) then Refused(LoginConflict)
    else if r.key.Some? && KeyTaken(t, r.key.value) then Refused(KeyConflict)
    else if !Synced(r.how) && LoginTaken(t, -t.nextId, t.nextId) then Crashed
    else Made(t.nextId)
  }

  /** An account's own row with the challenge, job and credential that go with it. */
  function WithRow(t: Tables, id: int, row: Account, hasCredential: bool): Tables {
    t.(accounts := t.accounts[id := row],
       challenged := if row.prop then t.challenged + {id} else t.challenged,
       jobs := if row.how.AutoSync? then t.jobs + {id} else t.jobs,
       credentials := if row.how.AutoSync? && hasCredential then t.credentials + {id} else t.credentials)
  }

  /** The rows of a new account, before its cost is charged. */
  function Added(t: Tables, r: Request): Tables {
    var id := t.nextId;
    WithRow(t.(nextId := id + 1), id, NewAccount(r, if Synced(r.how) then InitialLogin(r) else Some(-id)),
            r.hasCredential)
  }

  function ChargedNow(t: Tables, id: int): Tables
    requires id in t.accounts
  {
    if HasChallengeFee(t.accounts[id]) then Posted(t, ChallengeFee(id, t.accounts[id])) else t
  }

  /** One provisioning transaction. An insert that fails still uses up the id it drew. */
  function Provisioned(t: Tables, r: Request): Tables {
    match Judge(t, r)
    case Replay => t
    case Refused(why) => if why.GroupConflict? then t else t.(nextId := t.nextId + 1)
    case Crashed => t.(nextId := t.nextId + 1)
    case Made(id) => ChargedNow(Added(t, r), t.nextId)
  }

  // ---- binding -------------------------------------------------------------------------------

  datatype Answer = Bound | Ok | Mismatch | Taken

  /** `seen` is the login the caller read off the account row some time before. */
  function BindAnswer(t: Tables, id: int, seen: Option<int>, login: int): Answer {
    if seen.Some? then if seen.value == login then Ok else Mismatch
    else if id in t.accounts && t.accounts[id].login.None? then if LoginTaken(t, login, id) then Taken else Bound
    else if id in t.accounts && t.accounts[id].login == Some(login) then Ok
    else Mismatch
  }

  function WithLogin(t: Tables, id: int, login: int): Tables
    requires id in t.accounts
  {
    t.(accounts := t.accounts[id := t.accounts[id].(login := Some(login))])
  }

  function Binding(t: Tables, id: int, seen: Option<int>, login: int): Tables {
    if BindAnswer(t, id, seen, login).Bound? then WithLogin(t, id, login) else t
  }

  // ---- fees and accounts by hand ---------------------------------------------------------------

  function WithoutFee(t: Tables, user: int, k: int): Tables {
    if k in t.fees && t.fees[k].user == user then t.(fees := t.fees - {k}) else t
  }

  function FeesOff(t: Tables, login: Option<int>): map<int, Fee> {
    map k | k in t.fees && !(login == Some(t.fees[k].login)) :: t.fees[k]
  }

  /** Deleting an account whose login was read as `seen` just before the transaction. */
  function Deleted(t: Tables, user: int, id: int, seen: Option<int>): Tables {
    if id in t.accounts && t.accounts[id].user == user then
      t.(accounts := t.accounts - {id}, fees := FeesOff(t, seen),
         challenged := t.challenged - {id}, jobs := t.jobs - {id}, credentials := t.credentials - {id})
    else t
  }

  // ---- the tables as the code writes them ------------------------------------------------------

  class Database {
    var accounts: map<int, Account>
    var fees: map<int, Fee>
    var nextId: int
    var nextFee: int
    var challenged: set<int>
    var jobs: set<int>
    var credentials: set<int>

    function State(): Tables
      reads this
    {
      Tables(accounts, fees, nextId, nextFee, challenged, jobs, credentials)
    }

    /** Statement by statement on copies; every early return before the commit is a rollback. */
    method ProvisionAccount(r: Request) returns (v: Verdict)
      modifies this
      ensures v == Judge(old(State()), r)
      ensures State() == Provisioned(old(State()), r)
    {
      if r.key.Some? {
        if exists id :: id in accounts && accounts[id].user == r.user && accounts[id].key == Some(r.key.value) {
          return Replay;
        }
      }
      if r.prop && !r.joinable {
        return Refused(GroupConflict);
      }
      var login := r.explicit;
      if login.None? && r.how.AutoSync? && r.hasCredential {
        login := r.credentialLogin;
      }
      var id := nextId;
      nextId := nextId + 1;
      if login.Some? && LoginTaken(State(), login.value, id) {
        return Refused(LoginConflict);
      }
      if r.key.Some? && KeyTaken(State(), r.key.value) {
        return Refused(KeyConflict);
      }
      if !Synced(r.how) {
        if LoginTaken(State(), -id, id) {
          return Crashed;
        }
        login := Some(-id);
      }
      WriteRows(id, Account(r.user, r.how, login, r.key, r.cost, r.prop, r.funded, r.now), r.hasCredential);
      return Made(id);
    }

    /** The writes that follow, the charge last. */
    method WriteRows(id: int, row: Account, hasCredential: bool)
      modifies this
      ensures State() == ChargedNow(WithRow(old(State()), id, row, hasCredential), id)
    {
      accounts := accounts[id := row];
      if row.prop {
        challenged := challenged + {id};
      }
      if row.how.AutoSync? {
        if hasCredential {
          credentials := credentials + {id};
        }
        jobs := jobs + {id};
      }
      if HasChallengeFee(row) {
        InsertFee(ChallengeFee(id, row));
      }
    }

    method InsertFee(f: Fee)
      modifies this`fees, this`nextFee
      ensures State() == Posted(old(State()), f)
    {
      if !Clashes(State(), f) {
        fees := fees[nextFee := f];
        nextFee := nextFee + 1;
      }
    }

    /** `posts` says whether the best-effort fee write after the bind gets through. */
    method BindOrCheckLogin(id: int, seen: Option<int>, login: int, posts: bool) returns (answer: Answer)
      modifies this
      ensures answer == BindAnswer(old(State()), id, seen, login)
      ensures var bound := Binding(old(State()), id, seen, login);
        State() == if answer.Bound? && posts && id in bound.accounts then ChargedNow(bound, id) else bound
    {
      if seen.Some? {
        return if seen.value == login then Ok else Mismatch;
      }
      if id in accounts && accounts[id].login.None? {
        if LoginTaken(State(), login, id) {
          return Taken;
        }
        accounts := accounts[id := accounts[id].(login := Some(login))];
        if posts && HasChallengeFee(accounts[id]) {
          InsertFee(ChallengeFee(id, accounts[id]));
        }
        return Bound;
      }
      return if id in accounts && accounts[id].login == Some(login) then Ok else Mismatch;
    }

    method DeleteFee(user: int, k: int) returns (done: bool)
      modifies this`fees
      ensures State() == WithoutFee(old(State()), user, k)
      ensures done <==> k in old(fees) && old(fees)[k].user == user
    {
      done := k in fees && fees[k].user == user;
      if done {
        fees := fees - {k};
      }
    }

    /** The fees go first, the owned account row last; without that row nothing is kept. */
    method DeleteAccount(user: int, id: int, seen: Option<int>) returns (done: bool)
      modifies this
      ensures State() == Deleted(old(State()), user, id, seen)
      ensures done <==> id in old(accounts) && old(accounts)[id].user == user
    {
      var kept := fees;
      if seen.Some? {
        kept := map k | k in fees && fees[k].login != seen.value :: fees[k];
      }
      assert kept == FeesOff(State(), seen);
      if id !in accounts || accounts[id].user != user {
        return false;
      }
      fees, accounts := kept, accounts - {id};
      challenged, jobs, credentials := challenged - {id}, jobs - {id}, credentials - {id};
      return true;
    }
  }
}
