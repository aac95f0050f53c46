/** What each event does to a connection, field by field, and where every recorded authorization came from. */
module ConnectionLaws {
  import opened Prelude
  import opened Connection

  /** Entry `i` is the first of that id. */
  predicate IsFirst(ws: seq<Waiting>, id: int, i: int) {
    0 <= i < |ws| && ws[i].id == id && forall j :: 0 <= j < i ==> ws[j].id != id
  }

  predicate WaitsAt(s: Conn, id: int, i: int) {
    IsFirst(s.pending, id, i)
  }

  /** The answers after which authApp or authAccount goes on as authorized. */
  predicate GoesOn(p: Purpose, o: Outcome) {
    (p.AppAuth? && o == Resolved) || (p.AccountAuth? && (o == Resolved || o == Rejected("ALREADY_LOGGED_IN")))
  }

  /** Entry `i` is settled to `o` and every other one goes on waiting. */
  predicate SettledAt(s: Conn, i: int, o: Outcome, t: Conn)
    requires 0 <= i < |s.pending|
  {
    var p, on := s.pending[i].purpose, GoesOn(s.pending[i].purpose, o);
    && t.pending == s.pending[..i] + s.pending[i + 1..]
    && t.settled == s.settled + [Settlement(s.pending[i].id, o)]
    && t.ready == (if on then s.ready + [p] else s.ready)
    && t.granted == (if on && p.AccountAuth? then s.granted + {p.ctid} else s.granted)
    && t.appGranted == (s.appGranted || (on && p.AppAuth?))
    && SameSession(s, t) && t.msgSeq == s.msgSeq
  }

  predicate SameSession(s: Conn, t: Conn) {
    t.accounts == s.accounts && t.appAuthed == s.appAuthed && t.up == s.up && t.closed == s.closed
  }

  ghost predicate Answered(s: Conn, id: Option<int>, o: Outcome, t: Conn) {
    if id.Some? && exists i :: WaitsAt(s, id.value, i)
    then exists i :: WaitsAt(s, id.value, i) && SettledAt(s, i, o, t)
    else t == s
  }

  /** Exactly the named accounts are forgotten; requests go on as they were. */
  ghost predicate Forgets(s: Conn, ids: set<int>, t: Conn) {
    && (forall c :: c in t.accounts <==> c in s.accounts && c !in ids)
    && (forall c :: c in t.accounts ==> t.accounts[c] == s.accounts[c])
    && (forall c :: c in t.granted <==> c in s.granted && c !in ids)
    && t == s.(accounts := t.accounts, granted := t.granted)
  }

  /** Every waiting request is rejected in order, and nobody is authorized any more. */
  ghost predicate Goes(s: Conn, t: Conn) {
    if s.closed then t == s
    else
      && t == Conn(s.msgSeq, [], t.settled, s.ready, map[], false, {}, false, false, false)
      && |t.settled| == |s.settled| + |s.pending|
      && s.settled <= t.settled
      && (forall i :: 0 <= i < |s.pending| ==>
            t.settled[|s.settled| + i].id == s.pending[i].id && t.settled[|s.settled| + i].outcome.Rejected?)
  }

  /** A new id; the request waits last in line, or is rejected at once when it cannot be written. */
  predicate Sends(s: Conn, p: Purpose, works: bool, t: Conn) {
    && t.msgSeq == s.msgSeq + 1
    && (if s.up && works
        then t.pending == s.pending + [Waiting(t.msgSeq, p)] && t.settled == s.settled
        else t.pending == s.pending && t.settled == s.settled + [Settlement(t.msgSeq, Rejected("unsent"))])
    && t.ready == s.ready && t.granted == s.granted && t.appGranted == s.appGranted && SameSession(s, t)
  }

  /** The caller of authorization `i` resumes and records what it asked for. */
  predicate Resumes(s: Conn, i: int, t: Conn) {
    if !(0 <= i < |s.ready|) then t == s
    else
      && t.ready == s.ready[..i] + s.ready[i + 1..]
      && t.appAuthed == (s.appAuthed || s.ready[i].AppAuth?)
      && t.accounts == (if s.ready[i].AccountAuth? then s.accounts[s.ready[i].ctid := s.ready[i].token] else s.accounts)
      && t == s.(ready := t.ready, appAuthed := t.appAuthed, accounts := t.accounts)
  }

  ghost predicate Moves(s: Conn, step: Step, t: Conn) {
    match step
    case Open => t == s.(up := true)
    case Request(p, works) => Sends(s, p, works, t)
    case Timeout(id) => Answered(s, Some(id), Rejected("timeout"), t)
    case Receive(ErrorRes(id, code)) => Answered(s, id, Rejected(code), t)
    case Receive(Reply(id)) => Answered(s, id, Resolved, t)
    case Receive(TokenInvalidated(ids)) => Forgets(s, ids, t)
    case Receive(ClientDisconnect) => Goes(s, t)
    case Receive(Execution) => t == s
    case Receive(Heartbeat) => t == s
    case Resume(i) => Resumes(s, i, t)
    case Drop => Goes(s, t)
    case Close => t == s.(closed := true, up := false)
  }

  lemma FirstCons(w: Waiting, ws: seq<Waiting>, id: int, i: int)
    requires w.id != id && IsFirst(ws, id, i)
    ensures IsFirst([w] + ws, id, i + 1)
    ensures ([w] + ws)[..i + 1] + ([w] + ws)[i + 2..] == [w] + (ws[..i] + ws[i + 1..])
  {
  }

  lemma {:induction false} FoundWhere(ws: seq<Waiting>, id: int) returns (i: int)
    ensures Find(ws, id).Some? ==>
      IsFirst(ws, id, i) && Find(ws, id) == Some(ws[i].purpose) && Without(ws, id) == ws[..i] + ws[i + 1..]
    ensures Find(ws, id).None? ==> forall w :: w in ws ==> w.id != id
  {
    if ws == [] || ws[0].id == id {
      return 0;
    }
    var rest := ws[1..];
    assert ws == [ws[0]] + rest;
    i := FoundWhere(rest, id);
    if Find(rest, id).Some? {
      FirstCons(ws[0], rest, id, i);
    }
    i := i + 1;
  }

  lemma AnswerMoves(s: Conn, id: int, o: Outcome)
    ensures Answered(s, Some(id), o, Settled(s, id, o))
  {
    var i := FoundWhere(s.pending, id);
    if Find(s.pending, id).Some? {
      assert WaitsAt(s, id, i) && SettledAt(s, i, o, Settled(s, id, o));
    }
  }

  lemma {:induction false} LostInOrder(ws: seq<Waiting>)
    ensures |Lose(ws)| == |ws|
    ensures forall i :: 0 <= i < |ws| ==> Lose(ws)[i].id == ws[i].id && Lose(ws)[i].outcome.Rejected?
  {
    if ws != [] {
      LostInOrder(ws[..|ws| - 1]);
    }
  }

  lemma MessageMoves(s: Conn, m: Message)
    ensures Moves(s, Receive(m), Dispatched(s, m))
  {
    match m
    case ErrorRes(id, code) =>
      if id.Some? {
        AnswerMoves(s, id.value, Rejected(code));
      }
    case TokenInvalidated(ids) =>
    case ClientDisconnect => LostInOrder(s.pending);
    case Execution =>
    case Heartbeat =>
    case Reply(id) =>
      if id.Some? {
        AnswerMoves(s, id.value, Resolved);
      }
  }

  /** What each event does, read off the connection's own fields: a reply resolves the request of its id, an
      error rejects it with its code, an invalidation forgets exactly the accounts it names, and so on. */
  lemma NextMoves(s: Conn, step: Step)
    ensures Moves(s, step, Next(s, step))
  {
    match step
    case Open =>
    case Request(p, works) =>
    case Timeout(id) => AnswerMoves(s, id, Rejected("timeout"));
    case Receive(m) => MessageMoves(s, m);
    case Resume(i) =>
    case Drop => LostInOrder(s.pending);
    case Close =>
  }

  // ---- where an authorization comes from -------------------------------------------------------------

  /** Step `k` of the run sent this request under this id. */
  ghost predicate SentAt(steps: seq<Step>, k: nat, id: int, p: Purpose) {
    k < |steps| && steps[k] == Request(p, true) && After(Fresh, steps[..k]).msgSeq + 1 == id
  }

  ghost predicate Sent(steps: seq<Step>, id: int, p: Purpose) {
    exists k: nat :: SentAt(steps, k, id, p)
  }

  predicate Accepted(ss: seq<Settlement>, id: int, p: Purpose) {
    Settlement(id, Resolved) in ss || (p.AccountAuth? && Settlement(id, Rejected("ALREADY_LOGGED_IN")) in ss)
  }

  /** The run asked for this authorization and got a yes. */
  ghost predicate Cleared(steps: seq<Step>, ss: seq<Settlement>, p: Purpose) {
    exists id :: Sent(steps, id, p) && Accepted(ss, id, p)
  }

  ghost predicate WaitingWasSent(steps: seq<Step>, s: Conn) {
    forall i :: 0 <= i < |s.pending| ==> Sent(steps, s.pending[i].id, s.pending[i].purpose)
  }

  ghost predicate ReadyWasCleared(steps: seq<Step>, s: Conn) {
    forall i :: 0 <= i < |s.ready| ==> Cleared(steps, s.settled, s.ready[i])
  }

  ghost predicate RecordedWasCleared(steps: seq<Step>, s: Conn) {
    && (forall c :: c in s.accounts ==> Cleared(steps, s.settled, AccountAuth(c, s.accounts[c])))
    && (s.appAuthed ==> Cleared(steps, s.settled, AppAuth))
  }

  lemma StillSent(steps: seq<Step>, step: Step, id: int, p: Purpose)
    requires Sent(steps, id, p)
    ensures Sent(steps + [step], id, p)
  {
    var k: nat :| SentAt(steps, k, id, p);
    assert (steps + [step])[..k] == steps[..k];
    assert SentAt(steps + [step], k, id, p);
  }

  lemma StillCleared(steps: seq<Step>, step: Step, ss: seq<Settlement>, tt: seq<Settlement>, p: Purpose)
    requires Cleared(steps, ss, p) && ss <= tt
    ensures Cleared(steps + [step], tt, p)
  {
    var id :| Sent(steps, id, p) && Accepted(ss, id, p);
    StillSent(steps, step, id, p);
    assert forall x :: x in ss ==> x in tt;
  }

  /** Only a request that went out joins those waiting. */
  lemma WaitingBefore(s: Conn, step: Step)
    ensures forall w :: w in Next(s, step).pending ==>
      w in s.pending || (step == Request(w.purpose, true) && w.id == s.msgSeq + 1)
  {
    match step
    case Open =>
    case Request(p, works) =>
    case Timeout(id) => SettledLeaves(s, id, Rejected("timeout"));
    case Receive(m) =>
      match m {
        case ErrorRes(id, code) =>
          if id.Some? {
            SettledLeaves(s, id.value, Rejected(code));
          }
        case TokenInvalidated(ids) =>
        case ClientDisconnect =>
        case Execution =>
        case Heartbeat =>
        case Reply(id) =>
          if id.Some? {
            SettledLeaves(s, id.value, Resolved);
          }
      }
    case Resume(i) =>
    case Drop =>
    case Close =>
  }

  lemma SettledLeaves(s: Conn, id: int, o: Outcome)
    ensures forall w :: w in Settled(s, id, o).pending ==> w in s.pending
  {
    var i := FoundWhere(s.pending, id);
  }

  lemma WaitingStep(steps: seq<Step>, step: Step, s: Conn)
    requires s == After(Fresh, steps) && WaitingWasSent(steps, s)
    ensures WaitingWasSent(steps + [step], Next(s, step))
  {
    var t := Next(s, step);
    WaitingBefore(s, step);
    forall i | 0 <= i < |t.pending| ensures Sent(steps + [step], t.pending[i].id, t.pending[i].purpose) {
      var w := t.pending[i];
      if w in s.pending {
        var j :| 0 <= j < |s.pending| && s.pending[j] == w;
        StillSent(steps, step, w.id, w.purpose);
      } else {
        assert (steps + [step])[..|steps|] == steps;
        assert SentAt(steps + [step], |steps|, w.id, w.purpose);
      }
    }
  }

  /** A request that just settled with a yes was sent by this run. */
  lemma NewlyReady(steps: seq<Step>, step: Step, s: Conn, i: int, o: Outcome)
    requires 0 <= i < |s.pending| && WaitingWasSent(steps, s) && GoesOn(s.pending[i].purpose, o)
    requires SettledAt(s, i, o, Next(s, step))
    ensures Cleared(steps + [step], Next(s, step).settled, s.pending[i].purpose)
  {
    var w := s.pending[i];
    StillSent(steps, step, w.id, w.purpose);
    assert Next(s, step).settled[|s.settled|] == Settlement(w.id, o);
    assert Accepted(Next(s, step).settled, w.id, w.purpose);
  }

  lemma SettledReady(steps: seq<Step>, step: Step, s: Conn, id: int, o: Outcome)
    requires WaitingWasSent(steps, s) && ReadyWasCleared(steps, s)
    requires Answered(s, Some(id), o, Next(s, step))
    ensures ReadyWasCleared(steps + [step], Next(s, step))
  {
    OldReady(steps, step, s);
    if exists i :: WaitsAt(s, id, i) {
      var i :| WaitsAt(s, id, i) && SettledAt(s, i, o, Next(s, step));
      ReadyOfSettled(steps, step, s, i, o);
    }
  }

  lemma ReadyOfSettled(steps: seq<Step>, step: Step, s: Conn, i: int, o: Outcome)
    requires 0 <= i < |s.pending| && WaitingWasSent(steps, s) && SettledAt(s, i, o, Next(s, step))
    requires OldOnesCleared(steps, step, s)
    ensures ReadyWasCleared(steps + [step], Next(s, step))
  {
    if GoesOn(s.pending[i].purpose, o) {
      NewlyReady(steps, step, s, i, o);
    }
    forall k | 0 <= k < |Next(s, step).ready|
      ensures Cleared(steps + [step], Next(s, step).settled, Next(s, step).ready[k])
    {
      assert k < |s.ready| ==> Next(s, step).ready[k] == s.ready[k];
    }
  }

  ghost predicate OldOnesCleared(steps: seq<Step>, step: Step, s: Conn) {
    forall i :: 0 <= i < |s.ready| ==> Cleared(steps + [step], Next(s, step).settled, s.ready[i])
  }

  /** What was ready before the step stays cleared. */
  lemma OldReady(steps: seq<Step>, step: Step, s: Conn)
    requires ReadyWasCleared(steps, s)
    ensures OldOnesCleared(steps, step, s)
  {
    StepAppends(s, step);
    forall i | 0 <= i < |s.ready| ensures Cleared(steps + [step], Next(s, step).settled, s.ready[i]) {
      StillCleared(steps, step, s.settled, Next(s, step).settled, s.ready[i]);
    }
  }

  lemma ReadyStep(steps: seq<Step>, step: Step, s: Conn)
    requires WaitingWasSent(steps, s) && ReadyWasCleared(steps, s)
    ensures ReadyWasCleared(steps + [step], Next(s, step))
  {
    NextMoves(s, step);
    OldReady(steps, step, s);
    match step
    case Open =>
    case Request(p, works) =>
    case Timeout(id) => SettledReady(steps, step, s, id, Rejected("timeout"));
    case Receive(m) =>
      match m {
        case ErrorRes(id, code) =>
          if id.Some? {
            SettledReady(steps, step, s, id.value, Rejected(code));
          }
        case TokenInvalidated(ids) =>
        case ClientDisconnect =>
        case Execution =>
        case Heartbeat =>
        case Reply(id) =>
          if id.Some? {
            SettledReady(steps, step, s, id.value, Resolved);
          }
      }
    case Resume(i) =>
    case Drop =>
    case Close =>
  }

  /** Only a resumed authorization enters the record. */
  lemma RecordedBefore(s: Conn, step: Step, c: int)
    requires c in Next(s, step).accounts
    ensures (c in s.accounts && s.accounts[c] == Next(s, step).accounts[c])
      || (exists i :: 0 <= i < |s.ready| && s.ready[i] == AccountAuth(c, Next(s, step).accounts[c]))
  {
    NextMoves(s, step);
    match step
    case Open =>
    case Request(p, works) =>
    case Timeout(id) =>
    case Receive(m) =>
    case Resume(i) =>
    case Drop =>
    case Close =>
  }

  lemma AppBefore(s: Conn, step: Step)
    requires Next(s, step).appAuthed
    ensures s.appAuthed || exists i :: 0 <= i < |s.ready| && s.ready[i] == AppAuth
  {
  }

  lemma RecordedStep(steps: seq<Step>, step: Step, s: Conn)
    requires ReadyWasCleared(steps, s) && RecordedWasCleared(steps, s)
    ensures RecordedWasCleared(steps + [step], Next(s, step))
  {
    var t := Next(s, step);
    StepAppends(s, step);
    forall c | c in t.accounts ensures Cleared(steps + [step], t.settled, AccountAuth(c, t.accounts[c])) {
      RecordedBefore(s, step, c);
      StillCleared(steps, step, s.settled, t.settled, AccountAuth(c, t.accounts[c]));
    }
    if t.appAuthed {
      AppBefore(s, step);
      StillCleared(steps, step, s.settled, t.settled, AppAuth);
    }
  }

  lemma {:induction false} EveryRunIsTraced(steps: seq<Step>)
    ensures var s := After(Fresh, steps);
      WaitingWasSent(steps, s) && ReadyWasCleared(steps, s) && RecordedWasCleared(steps, s)
  {
    if steps != [] {
      var init, step := steps[..|steps| - 1], steps[|steps| - 1];
      assert steps == init + [step];
      EveryRunIsTraced(init);
      WaitingStep(init, step, After(Fresh, init));
      ReadyStep(init, step, After(Fresh, init));
      RecordedStep(init, step, After(Fresh, init));
    }
  }

  /** Over every run, an account is recorded with a token only if an authorization of that very account with
      that very token was sent and answered by success or by ALREADY_LOGGED_IN; any other error, a timeout or
      a loss never leads to a record. */
  lemma RecordedTokenWasAccepted(steps: seq<Step>, ctid: int)
    requires ctid in After(Fresh, steps).accounts
    ensures var s := After(Fresh, steps);
      exists id :: Sent(steps, id, AccountAuth(ctid, s.accounts[ctid]))
                && (Settlement(id, Resolved) in s.settled || Settlement(id, Rejected("ALREADY_LOGGED_IN")) in s.settled)
  {
    EveryRunIsTraced(steps);
    var s := After(Fresh, steps);
    var p := AccountAuth(ctid, s.accounts[ctid]);
    var id :| Sent(steps, id, p) && Accepted(s.settled, id, p);
  }
}
