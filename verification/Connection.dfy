/** One broker socket: correlated requests, their settlement, and who the socket has authorized. */
module Connection {
  import opened Prelude

  /** What a request was sent for; only the two authorizations act on their reply. */
  datatype Purpose = AppAuth | AccountAuth(ctid: int, token: string) | Query

  datatype Waiting = Waiting(id: int, purpose: Purpose)

  datatype Outcome = Resolved | Rejected(code: string)

  datatype Settlement = Settlement(id: int, outcome: Outcome)

  /** `pending` is in insertion order. `ready` holds authorizations whose reply is in but whose caller has
      not resumed yet. `granted` and `appGranted` are what the broker last said of the current socket. */
  datatype Conn = Conn(
    msgSeq: int, pending: seq<Waiting>, settled: seq<Settlement>, ready: seq<Purpose>,
    accounts: map<int, string>, appAuthed: bool, granted: set<int>, appGranted: bool, up: bool, closed: bool)

  datatype Message =
    | ErrorRes(id: Option<int>, code: string)
    | TokenInvalidated(ids: set<int>)
    | ClientDisconnect
    | Execution
    | Heartbeat
    | Reply(id: Option<int>)

  datatype Step =
    | Open
    | Request(purpose: Purpose, works: bool)
    | Timeout(id: int)
    | Receive(m: Message)
    | Resume(i: int)
    | Drop
    | Close

  const ALREADY_LOGGED_IN := "ALREADY_LOGGED_IN"

  const Fresh: Conn := Conn(0, [], [], [], map[], false, {}, false, false, false)

  function Find(ws: seq<Waiting>, id: int): Option<Purpose> {
    if ws == [] then None else if ws[0].id == id then Some(ws[0].purpose) else Find(ws[1..], id)
  }

  function Without(ws: seq<Waiting>, id: int): seq<Waiting> {
    if ws == [] then [] else if ws[0].id == id then ws[1..] else [ws[0]] + Without(ws[1..], id)
  }

  /** The reply lets the caller go on as authorized; already being logged in is as good as success. */
  predicate Admits(p: Purpose, o: Outcome) {
    match p
    case AppAuth => o.Resolved?
    case AccountAuth(ctid, token) => o == Resolved || o == Rejected(ALREADY_LOGGED_IN)
    case Query => false
  }

  function Settled(s: Conn, id: int, o: Outcome): Conn {
    match Find(s.pending, id)
    case None => s
    case Some(p) =>
      s.(pending := Without(s.pending, id),
         settled := s.settled + [Settlement(id, o)],
         ready := if Admits(p, o) then s.ready + [p] else s.ready,
         granted := if Admits(p, o) && p.AccountAuth? then s.granted + {p.ctid} else s.granted,
         appGranted := s.appGranted || (Admits(p, o) && p.AppAuth?))
  }

  function Lose(ws: seq<Waiting>): (r: seq<Settlement>) {
    if ws == [] then [] else Lose(ws[..|ws| - 1]) + [Settlement(ws[|ws| - 1].id, Rejected("down"))]
  }

  function Downed(s: Conn): Conn {
    if s.closed then s
    else
      s.(pending := [], settled := s.settled + Lose(s.pending), accounts := map[], appAuthed := false,
         granted := {}, appGranted := false, up := false)
  }

  function Asked(s: Conn, p: Purpose, works: bool): Conn {
    var id := s.msgSeq + 1;
    if s.up && works then s.(msgSeq := id, pending := s.pending + [Waiting(id, p)])
    else s.(msgSeq := id, settled := s.settled + [Settlement(id, Rejected("unsent"))])
  }

  function Dispatched(s: Conn, m: Message): Conn {
    match m
    case ErrorRes(id, code) => if id.Some? then Settled(s, id.value, Rejected(code)) else s
    case TokenInvalidated(ids) => s.(accounts := s.accounts - ids, granted := s.granted - ids)
    case ClientDisconnect => Downed(s)
    case Execution => s
    case Heartbeat => s
    case Reply(id) => if id.Some? then Settled(s, id.value, Resolved) else s
  }

  /** The rest of authApp or authAccount, once its await returns. */
  function Resumed(s: Conn, p: Purpose): Conn {
    match p
    case AppAuth => s.(appAuthed := true)
    case AccountAuth(ctid, token) => s.(accounts := s.accounts[ctid := token])
    case Query => s
  }

  function Next(s: Conn, step: Step): Conn {
    match step
    case Open => if s.up then s else s.(up := true)
    case Request(p, works) => Asked(s, p, works)
    case Timeout(id) => Settled(s, id, Rejected("timeout"))
    case Receive(m) => Dispatched(s, m)
    case Resume(i) =>
      if 0 <= i < |s.ready| then Resumed(s, s.ready[i]).(ready := s.ready[..i] + s.ready[i + 1..]) else s
    case Drop => Downed(s)
    case Close => s.(closed := true, up := false)
  }

  function After(s: Conn, steps: seq<Step>): Conn {
    if steps == [] then s else Next(After(s, steps[..|steps| - 1]), steps[|steps| - 1])
  }

  // ---- the connection object -------------------------------------------------------------------

  class CtraderConnection {
    var msgSeq: int
    var pending: seq<Waiting>
    var accounts: map<int, string>
    var appAuthed: bool
    var up: bool
    var closed: bool
    ghost var settled: seq<Settlement>
    ghost var ready: seq<Purpose>
    ghost var granted: set<int>
    ghost var appGranted: bool

    ghost function State(): Conn
      reads this
    {
      Conn(msgSeq, pending, settled, ready, accounts, appAuthed, granted, appGranted, up, closed)
    }

    constructor ()
      ensures State() == Fresh
    {
      msgSeq, pending, accounts, appAuthed, up, closed := 0, [], map[], false, false, false;
      settled, ready, granted, appGranted := [], [], {}, false;
    }

    /** `works` says whether the write goes through; with no socket it cannot. */
    method SendRequest(p: Purpose, works: bool) returns (id: int)
      modifies this
      ensures State() == Asked(old(State()), p, works)
      ensures id == msgSeq == old(msgSeq) + 1
    {
      msgSeq := msgSeq + 1;
      id := msgSeq;
      pending := pending + [Waiting(id, p)];
      if !up || !works {
        pending := pending[..|pending| - 1];
        settled := settled + [Settlement(id, Rejected("unsent"))];
      }
    }

    method Settle(id: int, o: Outcome)
      modifies this
      ensures State() == Settled(old(State()), id, o)
    {
      var found := Find(pending, id);
      if found.None? {
        return;
      }
      var p := found.value;
      pending := Without(pending, id);
      settled := settled + [Settlement(id, o)];
      if Admits(p, o) {
        ready := ready + [p];
        if p.AccountAuth? {
          granted := granted + {p.ctid};
        } else {
          appGranted := true;
        }
      }
    }

    method OnDown()
      modifies this
      ensures State() == Downed(old(State()))
    {
      if closed {
        return;
      }
      appAuthed := false;
      ghost var before := settled;
      for i := 0 to |pending|
        invariant settled == before + Lose(pending[..i])
        invariant State() == old(State()).(appAuthed := false, settled := settled)
      {
        assert pending[..i + 1][..i] == pending[..i];
        settled := settled + [Settlement(pending[i].id, Rejected("down"))];
      }
      assert pending[..|pending|] == pending;
      pending := [];
      accounts := map[];
      up := false;
      granted, appGranted := {}, false;
    }

    method Dispatch(m: Message)
      modifies this
      ensures State() == Dispatched(old(State()), m)
    {
      match m
      case ErrorRes(id, code) =>
        if id.Some? {
          Settle(id.value, Rejected(code));
        }
      case TokenInvalidated(ids) =>
        accounts := accounts - ids;
        granted := granted - ids;
      case ClientDisconnect => OnDown();
      case Execution =>
      case Heartbeat =>
      case Reply(id) =>
        if id.Some? {
          Settle(id.value, Resolved);
        }
    }

    /** ensureAccount up to its await: skip when this token is already on the socket, ask otherwise. */
    method EnsureAccount(ctid: int, token: string, works: bool) returns (asked: bool)
      modifies this
      ensures asked <==> !(ctid in old(accounts) && old(accounts)[ctid] == token)
      ensures State() == if asked then Asked(old(State()), AccountAuth(ctid, token), works) else old(State())
    {
      if ctid in accounts && accounts[ctid] == token {
        return false;
      }
      var _ := SendRequest(AccountAuth(ctid, token), works);
      return true;
    }
  }

  // ---- requests are conserved ------------------------------------------------------------------

  function Hits(same: bool): nat {
    if same then 1 else 0
  }

  function TimesWaiting(ws: seq<Waiting>, id: int): nat {
    if ws == [] then 0 else TimesWaiting(ws[..|ws| - 1], id) + Hits(ws[|ws| - 1].id == id)
  }

  function TimesSettled(ss: seq<Settlement>, id: int): nat {
    if ss == [] then 0 else TimesSettled(ss[..|ss| - 1], id) + Hits(ss[|ss| - 1].id == id)
  }

  lemma WaitingSnoc(ws: seq<Waiting>, w: Waiting, id: int)
    ensures TimesWaiting(ws + [w], id) == TimesWaiting(ws, id) + Hits(w.id == id)
  {
    assert (ws + [w])[..|ws|] == ws;
  }

  lemma SettledSnoc(ss: seq<Settlement>, x: Settlement, id: int)
    ensures TimesSettled(ss + [x], id) == TimesSettled(ss, id) + Hits(x.id == id)
  {
    assert (ss + [x])[..|ss|] == ss;
  }

  lemma {:induction false} WaitingCons(w: Waiting, ws: seq<Waiting>, id: int)
    ensures TimesWaiting([w] + ws, id) == Hits(w.id == id) + TimesWaiting(ws, id)
  {
    if ws == [] {
      assert [w] + ws == [] + [w];
      WaitingSnoc([], w, id);
    } else {
      var init, last := ws[..|ws| - 1], ws[|ws| - 1];
      assert [w] + ws == ([w] + init) + [last];
      WaitingCons(w, init, id);
      WaitingSnoc([w] + init, last, id);
    }
  }

  lemma {:induction false} TakenOut(ws: seq<Waiting>, taken: int, id: int)
    requires Find(ws, taken).Some?
    ensures TimesWaiting(Without(ws, taken), id) + Hits(taken == id) == TimesWaiting(ws, id)
  {
    var w, rest := ws[0], ws[1..];
    assert ws == [w] + rest;
    WaitingCons(w, rest, id);
    if w.id != taken {
      TakenOut(rest, taken, id);
      WaitingCons(w, Without(rest, taken), id);
    }
  }

  lemma {:induction false} AllLost(ss: seq<Settlement>, ws: seq<Waiting>, id: int)
    ensures TimesSettled(ss + Lose(ws), id) == TimesSettled(ss, id) + TimesWaiting(ws, id)
  {
    if ws == [] {
      assert ss + Lose(ws) == ss;
    } else {
      var init, last := ws[..|ws| - 1], ws[|ws| - 1];
      var x := Settlement(last.id, Rejected("down"));
      AllLost(ss, init, id);
      assert ss + Lose(ws) == (ss + Lose(init)) + [x];
      SettledSnoc(ss + Lose(init), x, id);
    }
  }

  /** An id issued so far is waiting or settled, once; any other is neither. */
  predicate Conserved(s: Conn, id: int) {
    s.msgSeq >= 0
    && TimesWaiting(s.pending, id) + TimesSettled(s.settled, id) == Hits(1 <= id <= s.msgSeq)
  }

  lemma SettleConserves(s: Conn, settled: int, o: Outcome, id: int)
    requires Conserved(s, id)
    ensures Conserved(Settled(s, settled, o), id) && s.settled <= Settled(s, settled, o).settled
  {
    if Find(s.pending, settled).Some? {
      TakenOut(s.pending, settled, id);
      SettledSnoc(s.settled, Settlement(settled, o), id);
    }
  }

  lemma AskConserves(s: Conn, p: Purpose, works: bool, id: int)
    requires Conserved(s, id)
    ensures Conserved(Asked(s, p, works), id)
  {
    WaitingSnoc(s.pending, Waiting(s.msgSeq + 1, p), id);
    SettledSnoc(s.settled, Settlement(s.msgSeq + 1, Rejected("unsent")), id);
  }

  lemma DownConserves(s: Conn, id: int)
    requires Conserved(s, id)
    ensures Conserved(Downed(s), id)
  {
    AllLost(s.settled, s.pending, id);
  }

  lemma MessageConserves(s: Conn, m: Message, id: int)
    requires Conserved(s, id)
    ensures Conserved(Dispatched(s, m), id)
  {
    match m
    case ErrorRes(to, code) =>
      if to.Some? {
        SettleConserves(s, to.value, Rejected(code), id);
      }
    case TokenInvalidated(ids) =>
    case ClientDisconnect => DownConserves(s, id);
    case Execution =>
    case Heartbeat =>
    case Reply(to) =>
      if to.Some? {
        SettleConserves(s, to.value, Resolved, id);
      }
  }

  lemma StepConserves(s: Conn, step: Step, id: int)
    requires Conserved(s, id)
    ensures Conserved(Next(s, step), id)
  {
    match step
    case Open =>
    case Request(p, works) => AskConserves(s, p, works, id);
    case Timeout(late) => SettleConserves(s, late, Rejected("timeout"), id);
    case Receive(m) => MessageConserves(s, m, id);
    case Resume(i) =>
    case Drop => DownConserves(s, id);
    case Close =>
  }

  lemma {:induction false} RunConserves(s: Conn, steps: seq<Step>, id: int)
    requires Conserved(s, id)
    ensures Conserved(After(s, steps), id)
  {
    if steps != [] {
      RunConserves(s, steps[..|steps| - 1], id);
      StepConserves(After(s, steps[..|steps| - 1]), steps[|steps| - 1], id);
    }
  }

  /** Over all orders of reply, error, timeout and loss: the next id was never used, and every id issued is
      either waiting or settled, exactly once. */
  lemma RequestsAreSettledOnce(steps: seq<Step>, id: int)
    ensures var s := After(Fresh, steps);
      TimesWaiting(s.pending, id) + TimesSettled(s.settled, id) == if 1 <= id <= s.msgSeq then 1 else 0
  {
    RunConserves(Fresh, steps, id);
  }

  lemma StepAppends(s: Conn, step: Step)
    ensures s.settled <= Next(s, step).settled
  {
    match step
    case Open =>
    case Request(p, works) =>
    case Timeout(late) =>
    case Receive(m) => MessageAppends(s, m);
    case Resume(i) =>
    case Drop =>
    case Close =>
  }

  lemma MessageAppends(s: Conn, m: Message)
    ensures s.settled <= Dispatched(s, m).settled
  {
    match m
    case ErrorRes(to, code) =>
    case TokenInvalidated(ids) =>
    case ClientDisconnect =>
    case Execution =>
    case Heartbeat =>
    case Reply(to) =>
  }

  /** What a request settled to is final. */
  lemma {:induction false} SettlementsAreFinal(s: Conn, steps: seq<Step>)
    ensures s.settled <= After(s, steps).settled
  {
    if steps != [] {
      var init := steps[..|steps| - 1];
      SettlementsAreFinal(s, init);
      StepAppends(After(s, init), steps[|steps| - 1]);
    }
  }

  /** Losing the socket of an unclosed connection settles everything ever issued and forgets every authorization. */
  lemma DownLeavesNothing(steps: seq<Step>, id: int)
    requires !After(Fresh, steps).closed
    ensures var s := Next(After(Fresh, steps), Drop);
      && s.pending == [] && TimesSettled(s.settled, id) == Hits(1 <= id <= s.msgSeq)
      && s.accounts == map[] && !s.appAuthed && !s.up
  {
    RunConserves(Fresh, steps, id);
    DownConserves(After(Fresh, steps), id);
  }

  // ---- who the socket has authorized -------------------------------------------------------------

  predicate Backed(s: Conn, p: Purpose) {
    match p
    case AppAuth => s.appGranted
    case AccountAuth(ctid, token) => ctid in s.granted
    case Query => true
  }

  /** Nothing counts as authorized that the broker has not granted on this very socket. */
  predicate Sound(s: Conn) {
    s.accounts.Keys <= s.granted && (s.appAuthed ==> s.appGranted)
  }

  /** An authorization resumes after its grant was withdrawn. */
  predicate ResumesLate(s: Conn, step: Step) {
    step.Resume? && 0 <= step.i < |s.ready| && !Backed(s, s.ready[step.i])
  }

  lemma SoundExactly(s: Conn, step: Step)
    requires Sound(s)
    ensures Sound(Next(s, step)) <==> !ResumesLate(s, step)
  {
  }

  /** A grant withdrawn while its authorization has yet to resume. */
  predicate Overtakes(s: Conn, step: Step) {
    match step
    case Drop => !s.closed && Awaits(s)
    case Receive(m) =>
      (m.ClientDisconnect? && !s.closed && Awaits(s))
      || (m.TokenInvalidated? && exists i :: 0 <= i < |s.ready| && s.ready[i].AccountAuth? && s.ready[i].ctid in m.ids)
    case _ => false
  }

  predicate Awaits(s: Conn) {
    exists i :: 0 <= i < |s.ready| && !s.ready[i].Query?
  }

  ghost predicate Prompt(s: Conn) {
    forall i :: 0 <= i < |s.ready| ==> Backed(s, s.ready[i])
  }

  lemma SettlePrompt(s: Conn, id: int, o: Outcome)
    requires Prompt(s)
    ensures Prompt(Settled(s, id, o))
  {
    var t := Settled(s, id, o);
    assert forall i :: 0 <= i < |s.ready| ==> t.ready[i] == s.ready[i];
  }

  lemma PromptExactly(s: Conn, step: Step)
    requires Prompt(s)
    ensures Prompt(Next(s, step)) <==> !Overtakes(s, step)
  {
    match step
    case Open =>
    case Request(p, works) =>
    case Timeout(id) => SettlePrompt(s, id, Rejected("timeout"));
    case Receive(m) =>
      match m {
        case ErrorRes(id, code) =>
          if id.Some? {
            SettlePrompt(s, id.value, Rejected(code));
          }
        case TokenInvalidated(ids) => InvalidatedPrompt(s, ids);
        case ClientDisconnect => DownPrompt(s);
        case Execution =>
        case Heartbeat =>
        case Reply(id) =>
          if id.Some? {
            SettlePrompt(s, id.value, Resolved);
          }
      }
    case Resume(i) =>
    case Drop => DownPrompt(s);
    case Close =>
  }

  lemma DownPrompt(s: Conn)
    requires Prompt(s)
    ensures Prompt(Downed(s)) <==> s.closed || !Awaits(s)
  {
    if i :| !s.closed && 0 <= i < |s.ready| && !s.ready[i].Query? {
      assert !Backed(Downed(s), Downed(s).ready[i]);
    }
  }

  lemma InvalidatedPrompt(s: Conn, ids: set<int>)
    requires Prompt(s)
    ensures Prompt(Dispatched(s, TokenInvalidated(ids)))
      <==> !(exists i :: 0 <= i < |s.ready| && s.ready[i].AccountAuth? && s.ready[i].ctid in ids)
  {
    var t := Dispatched(s, TokenInvalidated(ids));
    if i :| 0 <= i < |s.ready| && s.ready[i].AccountAuth? && s.ready[i].ctid in ids {
      assert !Backed(t, t.ready[i]);
    } else {
      forall i | 0 <= i < |t.ready| ensures Backed(t, t.ready[i]) {
        assert Backed(s, s.ready[i]);
      }
    }
  }

  ghost predicate NeverOvertaken(s: Conn, steps: seq<Step>) {
    forall k :: 0 <= k < |steps| ==> !Overtakes(After(s, steps[..k]), steps[k])
  }

  /** As long as no loss or invalidation overtakes a reply's own continuation, every account counted as
      authorized is one the broker granted on the socket now in use. */
  lemma {:induction false} AuthorizedMeansGranted(s: Conn, steps: seq<Step>)
    requires Sound(s) && Prompt(s) && NeverOvertaken(s, steps)
    ensures Sound(After(s, steps)) && Prompt(After(s, steps))
  {
    if steps != [] {
      var n := |steps| - 1;
      forall k | 0 <= k < n ensures !Overtakes(After(s, steps[..n][..k]), steps[..n][k]) {
        assert steps[..n][..k] == steps[..k];
      }
      AuthorizedMeansGranted(s, steps[..n]);
      assert !Overtakes(After(s, steps[..n]), steps[n]);
      PromptExactly(After(s, steps[..n]), steps[n]);
      SoundExactly(After(s, steps[..n]), steps[n]);
    }
  }

  const Overtaken: seq<Step> := [
    Open, Request(AccountAuth(7, "t"), true), Receive(Reply(Some(1))),
    Receive(ClientDisconnect), Resume(0), Open]

  /** A reply and the broker's disconnect message in one read, both handled before the reply's caller
      resumes: the next socket counts the account as authorized, and ensureAccount asks for nothing. */
  lemma StaleAuthorization()
    ensures var s := After(Fresh, Overtaken);
      s.up && !s.closed && s.accounts == map[7 := "t"] && 7 !in s.granted
  {
    var s1 := Next(Fresh, Overtaken[0]);
    var s2 := Next(s1, Overtaken[1]);
    var s3 := Next(s2, Overtaken[2]);
    var s4 := Next(s3, Overtaken[3]);
    var s5 := Next(s4, Overtaken[4]);
    var s6 := Next(s5, Overtaken[5]);
    assert Overtaken[..0] == [];
    Unroll(Fresh, Overtaken, 0);
    Unroll(Fresh, Overtaken, 1);
    Unroll(Fresh, Overtaken, 2);
    Unroll(Fresh, Overtaken, 3);
    Unroll(Fresh, Overtaken, 4);
    Unroll(Fresh, Overtaken, 5);
    assert Overtaken[..6] == Overtaken;
    assert s3.ready == [AccountAuth(7, "t")];
  }

  lemma Unroll(s: Conn, steps: seq<Step>, k: nat)
    requires k < |steps|
    ensures After(s, steps[..k + 1]) == Next(After(s, steps[..k]), steps[k])
  {
    assert steps[..k + 1][..k] == steps[..k];
  }

  /** With no socket on an unclosed connection, nothing is waiting and nothing is granted. */
  predicate QuietWhenDown(s: Conn) {
    !s.up && !s.closed ==> s.pending == [] && s.granted == {} && !s.appGranted
  }

  lemma {:induction false} EveryRunIsQuietWhenDown(s: Conn, steps: seq<Step>)
    requires QuietWhenDown(s)
    ensures QuietWhenDown(After(s, steps))
  {
    if steps != [] {
      var init := steps[..|steps| - 1];
      EveryRunIsQuietWhenDown(s, init);
      QuietStep(After(s, init), steps[|steps| - 1]);
    }
  }

  lemma QuietStep(s: Conn, step: Step)
    requires QuietWhenDown(s)
    ensures QuietWhenDown(Next(s, step))
  {
    match step
    case Open =>
    case Request(p, works) =>
    case Timeout(id) =>
    case Receive(m) => QuietMessage(s, m);
    case Resume(i) =>
    case Drop =>
    case Close =>
  }

  lemma QuietMessage(s: Conn, m: Message)
    requires QuietWhenDown(s)
    ensures QuietWhenDown(Dispatched(s, m))
  {
    match m
    case ErrorRes(id, code) =>
    case TokenInvalidated(ids) =>
    case ClientDisconnect =>
    case Execution =>
    case Heartbeat =>
    case Reply(id) =>
  }

  /** When ensureAccount asks for nothing, a socket is up and the broker granted the account on it, provided
      no continuation was ever overtaken. */
  lemma SkippingIsSafe(steps: seq<Step>, ctid: int, token: string)
    requires NeverOvertaken(Fresh, steps) && !After(Fresh, steps).closed
    requires var s := After(Fresh, steps); ctid in s.accounts && s.accounts[ctid] == token
    ensures After(Fresh, steps).up && ctid in After(Fresh, steps).granted
  {
    AuthorizedMeansGranted(Fresh, steps);
    EveryRunIsQuietWhenDown(Fresh, steps);
  }
}
