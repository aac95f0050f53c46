/** computeProp: the back-computed anchor, the merged event stream and the running high-water mark. */
module Drawdown {
  import opened Prelude

  // ---- the maximum drawdown of a list of points ------------------------------------------------

  ghost predicate IsPeak(peak: real, pts: seq<real>) {
    (forall j :: 0 <= j < |pts| ==> pts[j] <= peak) && (exists j :: 0 <= j < |pts| && pts[j] == peak)
  }

  /** The fall from point `j` to point `k`. */
  function Fall(pts: seq<real>, j: int, k: int): real {
    if 0 <= j <= k < |pts| then pts[j] - pts[k] else 0.0
  }

  /** The largest fall from any point to itself or a later one. */
  ghost predicate IsMaxDrawdown(m: real, pts: seq<real>) {
    (forall j, k :: 0 <= j <= k < |pts| ==> Fall(pts, j, k) <= m)
    && (exists j, k :: 0 <= j <= k < |pts| && Fall(pts, j, k) == m)
  }

  /** The running peak and drawdown that both loops keep. */
  datatype Water = Water(peak: real, maxDD: real)

  function Raise(w: Water, x: real): Water {
    Water(MaxR(w.peak, x), MaxR(w.maxDD, MaxR(w.peak, x) - x))
  }

  function HighWater(pts: seq<real>): Water
    requires pts != []
  {
    if |pts| == 1 then Water(pts[0], 0.0) else Raise(HighWater(pts[..|pts| - 1]), pts[|pts| - 1])
  }

  lemma PeakAttained(peak: real, pts: seq<real>, x: real)
    requires IsPeak(peak, pts)
    ensures IsPeak(MaxR(peak, x), pts + [x])
  {
    var all := pts + [x];
    assert all[|pts|] == x;
    var j :| 0 <= j < |pts| && pts[j] == peak;
    assert all[j] == peak;
  }

  lemma FallsKept(pts: seq<real>, x: real)
    ensures forall j, k :: 0 <= j <= k < |pts| ==> Fall(pts + [x], j, k) == Fall(pts, j, k)
  {
  }

  lemma NextFall(w: Water, pts: seq<real>, x: real)
    requires IsPeak(w.peak, pts) && IsMaxDrawdown(w.maxDD, pts)
    ensures IsMaxDrawdown(Raise(w, x).maxDD, pts + [x])
  {
    var all, d := pts + [x], Raise(w, x).maxDD;
    FallsKept(pts, x);
    PeakAttained(w.peak, pts, x);
    forall j, k | 0 <= j <= k < |all| ensures Fall(all, j, k) <= d {
      if k < |pts| {
        assert Fall(all, j, k) == Fall(pts, j, k);
      } else {
        assert all[j] <= MaxR(w.peak, x);
      }
    }
    if d == w.maxDD {
      var j, k :| 0 <= j <= k < |pts| && Fall(pts, j, k) == w.maxDD;
      assert Fall(all, j, k) == d;
    } else {
      var j :| 0 <= j < |all| && all[j] == MaxR(w.peak, x);
      assert Fall(all, j, |pts|) == d;
    }
  }

  /** What the two running variables mean: the highest point so far and the largest fall so far. */
  lemma {:induction false} HighWaterIsLargestFall(pts: seq<real>)
    requires pts != []
    ensures IsPeak(HighWater(pts).peak, pts) && IsMaxDrawdown(HighWater(pts).maxDD, pts)
  {
    if |pts| == 1 {
      assert Fall(pts, 0, 0) == 0.0 && pts[0] == HighWater(pts).peak;
    } else {
      var n := |pts| - 1;
      HighWaterIsLargestFall(pts[..n]);
      PeakAttained(HighWater(pts[..n]).peak, pts[..n], pts[n]);
      NextFall(HighWater(pts[..n]), pts[..n], pts[n]);
      assert pts[..n] + [pts[n]] == pts;
    }
  }

  lemma HighWaterSnoc(pts: seq<real>, x: real)
    requires pts != []
    ensures HighWater(pts + [x]) == Raise(HighWater(pts), x)
  {
    assert (pts + [x])[..|pts|] == pts;
  }

  /** The loop of computeMetrics over the cumulative curve, whose mark starts at zero. */
  method CurveDrawdown(cumulative: seq<real>) returns (maxDD: real)
    ensures IsMaxDrawdown(maxDD, [0.0] + cumulative)
  {
    var peak := 0.0;
    maxDD := 0.0;
    for i := 0 to |cumulative|
      invariant Water(peak, maxDD) == HighWater([0.0] + cumulative[..i])
    {
      HighWaterSnoc([0.0] + cumulative[..i], cumulative[i]);
      assert [0.0] + cumulative[..i + 1] == [0.0] + cumulative[..i] + [cumulative[i]];
      peak := MaxR(peak, cumulative[i]);
      maxDD := MaxR(maxDD, peak - cumulative[i]);
    }
    assert cumulative[..|cumulative|] == cumulative;
    HighWaterIsLargestFall([0.0] + cumulative);
  }

  // ---- inputs ------------------------------------------------------------------------------

  const ACCOUNT_START: real := 50000.0

  datatype TradeRow = TradeRow(pnlMoney: Option<real>, closeTime: int)

  /** A payout record; an unreadable date is absent. */
  datatype Payout = Payout(gross: real, trader: real, date: Option<int>)

  datatype AccountInfo = AccountInfo(
    prop: bool, startBalance: Option<real>, createdAt: Option<int>, balance: Option<real>)

  datatype Event = Trade(date: int, pnl: real) | Withdrawal(date: int, gross: real)

  function ByDate(): Event -> real {
    (e: Event) => e.date as real
  }

  function IsTrade(): Event -> bool {
    (e: Event) => e.Trade?
  }

  function Start(a: AccountInfo): real {
    if a.startBalance.Some? && a.startBalance.value != 0.0 then a.startBalance.value else ACCOUNT_START
  }

  function HasPnl(): TradeRow -> bool {
    (t: TradeRow) => t.pnlMoney.Some?
  }

  function ToTrade(): TradeRow -> Event {
    (t: TradeRow) => Trade(t.closeTime, if t.pnlMoney.Some? then t.pnlMoney.value else 0.0)
  }

  /** The scored trades in close order. */
  function Trades(rows: seq<TradeRow>): seq<Event> {
    StableSort(Map(Select(rows, HasPnl()), ToTrade()), ByDate())
  }

  function Counts(addedAt: int): Payout -> bool {
    (p: Payout) => p.gross > 0.0 && p.date.Some? && p.date.value >= addedAt
  }

  function ToWithdrawal(): Payout -> Event {
    (p: Payout) => Withdrawal(if p.date.Some? then p.date.value else 0, p.gross)
  }

  function Drawn(payouts: seq<Payout>, addedAt: int): seq<Event> {
    Map(Select(payouts, Counts(addedAt)), ToWithdrawal())
  }

  /** Payouts on or after the day the account was added, in date order. */
  function PostAdd(payouts: seq<Payout>, addedAt: int): seq<Event> {
    StableSort(Drawn(payouts, addedAt), ByDate())
  }

  function AddedAt(a: AccountInfo, ts: seq<Event>, now: int): int {
    if a.createdAt.Some? then a.createdAt.value else if ts != [] then ts[0].date else now
  }

  // ---- sums over events ----------------------------------------------------------------------

  function Delta(e: Event): real {
    if e.Trade? then e.pnl else -e.gross
  }

  function Total(es: seq<Event>): real {
    if es == [] then 0.0 else Total(es[..|es| - 1]) + Delta(es[|es| - 1])
  }

  lemma TotalSnoc(es: seq<Event>, e: Event)
    ensures Total(es + [e]) == Total(es) + Delta(e)
  {
    assert (es + [e])[..|es|] == es;
  }

  lemma {:induction false} TotalAppend(a: seq<Event>, b: seq<Event>)
    ensures Total(a + b) == Total(a) + Total(b)
  {
    if b == [] {
      assert a + b == a;
    } else {
      var init, e := b[..|b| - 1], b[|b| - 1];
      assert a + b == (a + init) + [e] && b == init + [e];
      TotalAppend(a, init);
      TotalSnoc(a + init, e);
    }
  }

  lemma {:induction false} TotalInsert(e: Event, s: seq<Event>, rank: Event -> real)
    ensures Total(Insert(e, s, rank)) == Delta(e) + Total(s)
  {
    TotalSnoc([], e);
    assert [] + [e] == [e];
    if s == [] {
    } else if rank(e) <= rank(s[0]) {
      TotalAppend([e], s);
    } else {
      TotalInsert(e, s[1..], rank);
      TotalAppend([s[0]], Insert(e, s[1..], rank));
      TotalAppend([s[0]], s[1..]);
      assert [s[0]] + s[1..] == s;
    }
  }

  lemma {:induction false} TotalSorted(s: seq<Event>, rank: Event -> real)
    ensures Total(StableSort(s, rank)) == Total(s)
  {
    if s != [] {
      TotalSorted(s[1..], rank);
      TotalInsert(s[0], StableSort(s[1..], rank), rank);
      TotalSnoc([], s[0]);
      assert [] + [s[0]] == [s[0]] && [s[0]] + s[1..] == s;
      TotalAppend([s[0]], s[1..]);
    }
  }

  // ---- the loop ------------------------------------------------------------------------------

  /** Trading equity after each trade, from the anchor on. */
  function TradingPoints(anchor: real, ts: seq<Event>): seq<real> {
    if ts == [] then [anchor]
    else
      var before := TradingPoints(anchor, ts[..|ts| - 1]);
      before + [before[|before| - 1] + Delta(ts[|ts| - 1])]
  }

  /** What the drawdown side of the loop carries. */
  datatype Marks = Marks(tEquity: real, peak: real, maxDD: real, dayStart: Option<real>, dailyLow: Option<real>)

  function Opening(start: real, anchor: real): Marks {
    Marks(anchor, MaxR(start, anchor), MaxR(0.0, MaxR(start, anchor) - anchor), None, None)
  }

  function AfterTrade(m: Marks, pnl: real, today: bool): Marks {
    var t := m.tEquity + pnl;
    Marks(t, MaxR(m.peak, t), MaxR(m.maxDD, MaxR(m.peak, t) - t),
          if today && m.dayStart.None? then Some(m.tEquity) else m.dayStart,
          if today then Some(if m.dailyLow.Some? then MinR(m.dailyLow.value, t) else t) else m.dailyLow)
  }

  function Replay(start: real, anchor: real, es: seq<Event>, isToday: int -> bool): Marks {
    if es == [] then Opening(start, anchor)
    else
      var m, e := Replay(start, anchor, es[..|es| - 1], isToday), es[|es| - 1];
      if e.Trade? then AfterTrade(m, e.pnl, isToday(e.date)) else m
  }

  function DailyUsed(m: Marks): real {
    if m.dayStart.None? || m.dailyLow.None? then 0.0 else MaxR(0.0, m.dayStart.value - m.dailyLow.value)
  }

  datatype Figures = Figures(
    start: real, live: bool, anchor: real, finalEquity: real, currentBalance: real, netPnl: real,
    maxUsed: real, dailyUsed: real, curve: seq<real>)

  function Anchor(a: AccountInfo, ts: seq<Event>, post: seq<Event>): real {
    if a.balance.Some? then a.balance.value - Total(ts) - Total(post) else Start(a)
  }

  function Merged(rows: seq<TradeRow>, a: AccountInfo, payouts: seq<Payout>, now: int): seq<Event> {
    var ts := Trades(rows);
    StableSort(ts + PostAdd(payouts, AddedAt(a, ts, now)), ByDate())
  }

  /** The displayed curve: the balance at the add point, then after every event. */
  function Curve(anchor: real, es: seq<Event>): seq<real> {
    if es == [] then [anchor] else Curve(anchor, es[..|es| - 1]) + [anchor + Total(es)]
  }

  lemma CurveSnoc(anchor: real, es: seq<Event>, e: Event)
    ensures Curve(anchor, es + [e]) == Curve(anchor, es) + [anchor + Total(es + [e])]
  {
    assert (es + [e])[..|es|] == es;
  }

  lemma {:induction false} CurveAt(anchor: real, es: seq<Event>, k: nat)
    requires k <= |es|
    ensures |Curve(anchor, es)| == |es| + 1 && Curve(anchor, es)[k] == anchor + Total(es[..k])
  {
    if es != [] {
      var n := |es| - 1;
      CurveAt(anchor, es[..n], Min(k, n));
      if k <= n {
        assert es[..n][..k] == es[..k];
      } else {
        assert es[..k] == es;
      }
    }
  }

  /** The merged event loop with its running equity, marks and curve. */
  method ReplayEvents(start: real, anchor: real, events: seq<Event>, isToday: int -> bool)
    returns (equity: real, m: Marks, curve: seq<real>)
    ensures equity == anchor + Total(events)
    ensures m == Replay(start, anchor, events, isToday)
    ensures curve == Curve(anchor, events)
  {
    var tEquity, peak := anchor, MaxR(start, anchor);
    equity := anchor;
    var maxDD := MaxR(0.0, peak - anchor);
    var dayStart: Option<real>, dailyLow: Option<real> := None, None;
    curve := [equity];
    for i := 0 to |events|
      invariant equity == anchor + Total(events[..i])
      invariant Marks(tEquity, peak, maxDD, dayStart, dailyLow) == Replay(start, anchor, events[..i], isToday)
      invariant curve == Curve(anchor, events[..i])
    {
      var ev := events[i];
      assert events[..i + 1] == events[..i] + [ev];
      TotalSnoc(events[..i], ev);
      ReplaySnoc(start, anchor, events[..i], ev, isToday);
      CurveSnoc(anchor, events[..i], ev);
      if ev.Trade? {
        if isToday(ev.date) && dayStart.None? {
          dayStart := Some(tEquity);
        }
        equity, tEquity := equity + ev.pnl, tEquity + ev.pnl;
        peak := MaxR(peak, tEquity);
        maxDD := MaxR(maxDD, peak - tEquity);
        if isToday(ev.date) {
          dailyLow := Some(if dailyLow.Some? then MinR(dailyLow.value, tEquity) else tEquity);
        }
      } else {
        equity := equity - ev.gross;
      }
      curve := curve + [equity];
    }
    assert events[..|events|] == events;
    m := Marks(tEquity, peak, maxDD, dayStart, dailyLow);
  }

  /** The figures as the code computes them. */
  ghost predicate Reports(f: Figures, rows: seq<TradeRow>, a: AccountInfo, payouts: seq<Payout>, now: int,
                          isToday: int -> bool) {
    var ts, es := Trades(rows), Merged(rows, a, payouts, now);
    var post := PostAdd(payouts, AddedAt(a, ts, now));
    var m := Replay(f.start, f.anchor, es, isToday);
    && f.start == Start(a) && f.live == a.balance.Some?
    && f.anchor == Anchor(a, ts, post)
    && f.finalEquity == f.anchor + Total(es)
    && f.currentBalance == (if f.live then a.balance.value else f.finalEquity)
    && f.netPnl == f.currentBalance - f.start
    && f.maxUsed == m.maxDD && f.dailyUsed == DailyUsed(m)
    && f.curve == Curve(f.anchor, es)
  }

  /** computeProp: absent for a live-capital account. */
  method ComputeProp(rows: seq<TradeRow>, a: AccountInfo, payouts: seq<Payout>, now: int, isToday: int -> bool)
    returns (r: Option<Figures>)
    ensures r.None? <==> !a.prop
    ensures r.Some? ==> Reports(r.value, rows, a, payouts, now, isToday)
  {
    if !a.prop {
      return None;
    }
    var start := if a.startBalance.Some? && a.startBalance.value != 0.0 then a.startBalance.value else ACCOUNT_START;
    var ts := Trades(rows);
    var addedAt := AddedAt(a, ts, now);
    var postPs := PostAdd(payouts, addedAt);
    var grossPost := SumOf(postPs);
    var sumPnl := SumOf(ts);
    var anchor := if a.balance.Some? then a.balance.value - sumPnl - grossPost else start;
    var events := StableSort(ts + postPs, ByDate());
    var equity, m, curve := ReplayEvents(start, anchor, events, isToday);
    var currentBalance := if a.balance.Some? then a.balance.value else equity;
    var dailyDD := if m.dayStart.None? || m.dailyLow.None? then 0.0 else MaxR(0.0, m.dayStart.value - m.dailyLow.value);
    var netPnl := currentBalance - start;
    return Some(Figures(start, a.balance.Some?, anchor, equity, currentBalance, netPnl, m.maxDD, dailyDD, curve));
  }

  method SumOf(es: seq<Event>) returns (t: real)
    ensures t == Total(es)
  {
    t := 0.0;
    for i := 0 to |es|
      invariant t == Total(es[..i])
    {
      assert es[..i + 1][..i] == es[..i];
      t := t + (if es[i].Trade? then es[i].pnl else -es[i].gross);
    }
    assert es[..|es|] == es;
  }

  // ---- what the figures mean -----------------------------------------------------------------

  /** Anchored to a live balance, the curve lands on that balance; otherwise it lands on start plus
      everything that happened. */
  lemma CurveLandsOnBalance(rows: seq<TradeRow>, a: AccountInfo, payouts: seq<Payout>, now: int)
    ensures var ts := Trades(rows); var post := PostAdd(payouts, AddedAt(a, ts, now));
      Anchor(a, ts, post) + Total(Merged(rows, a, payouts, now))
      == if a.balance.Some? then a.balance.value else Start(a) + Total(ts) + Total(post)
  {
    var ts := Trades(rows);
    var post := PostAdd(payouts, AddedAt(a, ts, now));
    TotalSorted(ts + post, ByDate());
    TotalAppend(ts, post);
  }

  lemma {:induction false} AllOfKind(es: seq<Event>, trade: bool)
    requires forall e :: e in es ==> e.Trade? == trade
    ensures Select(es, IsTrade()) == if trade then es else []
  {
    if trade {
      SelectAll(es, IsTrade());
    } else {
      SelectNone(es, IsTrade());
    }
  }

  lemma KindsOf(rows: seq<TradeRow>, payouts: seq<Payout>, addedAt: int)
    ensures forall e :: e in Trades(rows) ==> e.Trade?
    ensures forall e :: e in PostAdd(payouts, addedAt) ==> e.Withdrawal?
  {
    StableSortMembers(Map(Select(rows, HasPnl()), ToTrade()), ByDate());
    StableSortMembers(Drawn(payouts, addedAt), ByDate());
  }

  /** The trades keep their own order inside the merged stream. */
  lemma MergedTrades(rows: seq<TradeRow>, a: AccountInfo, payouts: seq<Payout>, now: int)
    ensures Select(Merged(rows, a, payouts, now), IsTrade()) == Trades(rows)
  {
    var ts := Trades(rows);
    var post := PostAdd(payouts, AddedAt(a, ts, now));
    KindsOf(rows, payouts, AddedAt(a, ts, now));
    StableSortSelect(ts + post, ByDate(), IsTrade());
    SelectAppend(ts, post, IsTrade());
    AllOfKind(ts, true);
    AllOfKind(post, false);
    assert ts + [] == ts;
    StableSortSorted(Map(Select(rows, HasPnl()), ToTrade()), ByDate());
    StableSortOfSorted(ts, ByDate());
  }

  /** Withdrawals leave every drawdown mark alone. */
  lemma {:induction false} OnlyTradesMark(start: real, anchor: real, es: seq<Event>, isToday: int -> bool)
    ensures Replay(start, anchor, es, isToday) == Replay(start, anchor, Select(es, IsTrade()), isToday)
  {
    if es != [] {
      var init, e := es[..|es| - 1], es[|es| - 1];
      assert es == init + [e];
      OnlyTradesMark(start, anchor, init, isToday);
      SelectSnoc(init, e, IsTrade());
      var kept := Select(init, IsTrade());
      assert (kept + [e])[..|kept|] == kept;
    }
  }

  /** The same payouts with other dates, each on the same side of the day the account was added. */
  ghost predicate Redated(p: seq<Payout>, q: seq<Payout>, addedAt: int) {
    |p| == |q| && forall i :: 0 <= i < |p| ==>
      p[i].gross == q[i].gross && (Counts(addedAt)(p[i]) <==> Counts(addedAt)(q[i]))
  }

  lemma DrawnSnoc(payouts: seq<Payout>, p: Payout, addedAt: int)
    ensures Total(Drawn(payouts + [p], addedAt))
            == Total(Drawn(payouts, addedAt)) - (if Counts(addedAt)(p) then p.gross else 0.0)
  {
    var kept := Select(payouts, Counts(addedAt));
    SelectSnoc(payouts, p, Counts(addedAt));
    if Counts(addedAt)(p) {
      assert Map(kept + [p], ToWithdrawal()) == Map(kept, ToWithdrawal()) + [ToWithdrawal()(p)];
      TotalSnoc(Map(kept, ToWithdrawal()), ToWithdrawal()(p));
    }
  }

  lemma {:induction false} RedatedTotals(p: seq<Payout>, q: seq<Payout>, addedAt: int)
    requires Redated(p, q, addedAt)
    ensures Total(Drawn(p, addedAt)) == Total(Drawn(q, addedAt))
  {
    if p == [] {
      assert p == q;
    } else {
      var n := |p| - 1;
      assert p == p[..n] + [p[n]] && q == q[..n] + [q[n]];
      RedatedTotals(p[..n], q[..n], addedAt);
      DrawnSnoc(p[..n], p[n], addedAt);
      DrawnSnoc(q[..n], q[n], addedAt);
    }
  }

  /** However post-add payouts are dated among the trades, maximum and daily drawdown stay the same. */
  lemma RedatingPayoutsChangesNoDrawdown(rows: seq<TradeRow>, a: AccountInfo, p: seq<Payout>, q: seq<Payout>,
                                         now: int, isToday: int -> bool)
    requires Redated(p, q, AddedAt(a, Trades(rows), now))
    ensures var ts := Trades(rows);
      var anchorP := Anchor(a, ts, PostAdd(p, AddedAt(a, ts, now)));
      var anchorQ := Anchor(a, ts, PostAdd(q, AddedAt(a, ts, now)));
      var mp := Replay(Start(a), anchorP, Merged(rows, a, p, now), isToday);
      var mq := Replay(Start(a), anchorQ, Merged(rows, a, q, now), isToday);
      mp.maxDD == mq.maxDD && DailyUsed(mp) == DailyUsed(mq)
  {
    var ts := Trades(rows);
    var addedAt := AddedAt(a, ts, now);
    var anchor := Anchor(a, ts, PostAdd(p, addedAt));
    RedatedTotals(p, q, addedAt);
    TotalSorted(Drawn(p, addedAt), ByDate());
    TotalSorted(Drawn(q, addedAt), ByDate());
    OnlyTradesMark(Start(a), anchor, Merged(rows, a, p, now), isToday);
    OnlyTradesMark(Start(a), anchor, Merged(rows, a, q, now), isToday);
    MergedTrades(rows, a, p, now);
    MergedTrades(rows, a, q, now);
  }

  function Seeded(start: real, anchor: real, ts: seq<Event>): seq<real> {
    [start] + TradingPoints(anchor, ts)
  }

  lemma TradingPointsSnoc(anchor: real, ts: seq<Event>, e: Event)
    ensures var before := TradingPoints(anchor, ts);
      TradingPoints(anchor, ts + [e]) == before + [before[|before| - 1] + Delta(e)]
  {
    assert (ts + [e])[..|ts|] == ts;
  }

  lemma ReplaySnoc(start: real, anchor: real, es: seq<Event>, e: Event, isToday: int -> bool)
    ensures var m := Replay(start, anchor, es, isToday);
      Replay(start, anchor, es + [e], isToday)
      == if e.Trade? then AfterTrade(m, e.pnl, isToday(e.date)) else m
  {
    assert (es + [e])[..|es|] == es;
  }

  lemma {:induction false} MarksOfTrades(start: real, anchor: real, ts: seq<Event>, isToday: int -> bool)
    requires forall e :: e in ts ==> e.Trade?
    ensures var m, pts := Replay(start, anchor, ts, isToday), TradingPoints(anchor, ts);
      && |pts| == |ts| + 1 && pts[|ts|] == m.tEquity
      && Water(m.peak, m.maxDD) == HighWater(Seeded(start, anchor, ts))
  {
    if ts == [] {
      HighWaterSnoc([start], anchor);
      assert [start] + [anchor] == Seeded(start, anchor, ts);
    } else {
      var init, e := ts[..|ts| - 1], ts[|ts| - 1];
      assert ts == init + [e] && e in ts;
      MarksOfTrades(start, anchor, init, isToday);
      var m := Replay(start, anchor, init, isToday);
      ReplaySnoc(start, anchor, init, e, isToday);
      TradingPointsSnoc(anchor, init, e);
      HighWaterSnoc(Seeded(start, anchor, init), m.tEquity + e.pnl);
      assert Seeded(start, anchor, ts) == Seeded(start, anchor, init) + [m.tEquity + e.pnl];
    }
  }

  /** The reported maximum drawdown is the largest fall of trading equity from the challenge start, the
      anchor or any earlier point, payouts ignored. */
  lemma MaxDrawdownIsHighWater(rows: seq<TradeRow>, a: AccountInfo, payouts: seq<Payout>, now: int,
                               isToday: int -> bool)
    ensures var ts := Trades(rows); var anchor := Anchor(a, ts, PostAdd(payouts, AddedAt(a, ts, now)));
      IsMaxDrawdown(Replay(Start(a), anchor, Merged(rows, a, payouts, now), isToday).maxDD,
                    Seeded(Start(a), anchor, ts))
  {
    var ts := Trades(rows);
    var anchor := Anchor(a, ts, PostAdd(payouts, AddedAt(a, ts, now)));
    KindsOf(rows, payouts, 0);
    OnlyTradesMark(Start(a), anchor, Merged(rows, a, payouts, now), isToday);
    MergedTrades(rows, a, payouts, now);
    MarksOfTrades(Start(a), anchor, ts, isToday);
    HighWaterIsLargestFall(Seeded(Start(a), anchor, ts));
  }

  /** Trade `k` closed today. */
  predicate Today(ts: seq<Event>, isToday: int -> bool, k: int) {
    0 <= k < |ts| && isToday(ts[k].date)
  }

  /** Equity just before trade `k`, and just after it. */
  function Opens(pts: seq<real>, k: int): real {
    if 0 <= k < |pts| then pts[k] else 0.0
  }

  function Closes(pts: seq<real>, k: int): real {
    Opens(pts, k + 1)
  }

  /** `v` is the equity the day's first trade opened on; absent when no trade closed today. */
  ghost predicate IsDayStart(v: Option<real>, pts: seq<real>, ts: seq<Event>, isToday: int -> bool) {
    if v.None? then forall k :: 0 <= k < |ts| ==> !Today(ts, isToday, k)
    else
      exists k :: Today(ts, isToday, k) && Opens(pts, k) == v.value
        && forall j :: 0 <= j < k ==> !Today(ts, isToday, j)
  }

  /** `v` is the lowest equity a trade of the day closed on. */
  ghost predicate IsDayLow(v: Option<real>, pts: seq<real>, ts: seq<Event>, isToday: int -> bool) {
    if v.None? then forall k :: 0 <= k < |ts| ==> !Today(ts, isToday, k)
    else
      && (exists k :: Today(ts, isToday, k) && Closes(pts, k) == v.value)
      && (forall k :: Today(ts, isToday, k) ==> v.value <= Closes(pts, k))
  }

  lemma SameDays(ts: seq<Event>, e: Event, isToday: int -> bool)
    ensures forall k :: k < |ts| ==> (Today(ts + [e], isToday, k) <==> Today(ts, isToday, k))
    ensures Today(ts + [e], isToday, |ts|) <==> isToday(e.date)
  {
  }

  lemma SamePoints(pts: seq<real>, x: real)
    ensures forall k :: 0 <= k < |pts| ==> Opens(pts + [x], k) == Opens(pts, k)
    ensures forall k :: 0 <= k < |pts| - 1 ==> Closes(pts + [x], k) == Closes(pts, k)
    ensures Closes(pts + [x], |pts| - 1) == x
  {
  }

  lemma DayStartStep(v: Option<real>, pts: seq<real>, ts: seq<Event>, e: Event, x: real, isToday: int -> bool)
    requires |pts| == |ts| + 1 && IsDayStart(v, pts, ts, isToday)
    ensures IsDayStart(if isToday(e.date) && v.None? then Some(pts[|ts|]) else v, pts + [x], ts + [e], isToday)
  {
    SameDays(ts, e, isToday);
    SamePoints(pts, x);
    if v.Some? {
      var k :| Today(ts, isToday, k) && Opens(pts, k) == v.value && forall j :: 0 <= j < k ==> !Today(ts, isToday, j);
      assert Today(ts + [e], isToday, k) && Opens(pts + [x], k) == v.value;
    } else if isToday(e.date) {
      assert Today(ts + [e], isToday, |ts|) && Opens(pts + [x], |ts|) == pts[|ts|];
    }
  }

  lemma DayLowStep(v: Option<real>, pts: seq<real>, ts: seq<Event>, e: Event, x: real, isToday: int -> bool)
    requires |pts| == |ts| + 1 && IsDayLow(v, pts, ts, isToday)
    ensures IsDayLow(if isToday(e.date) then Some(if v.Some? then MinR(v.value, x) else x) else v,
                     pts + [x], ts + [e], isToday)
  {
    SameDays(ts, e, isToday);
    SamePoints(pts, x);
    if isToday(e.date) {
      assert Today(ts + [e], isToday, |ts|) && Closes(pts + [x], |ts|) == x;
    }
    if v.Some? {
      var k :| Today(ts, isToday, k) && Closes(pts, k) == v.value;
      assert Today(ts + [e], isToday, k) && Closes(pts + [x], k) == v.value;
    }
  }

  /** Daily loss runs from the equity the day's first trade opened on to the day's lowest close. */
  lemma {:induction false} DayMarksOfTrades(start: real, anchor: real, ts: seq<Event>, isToday: int -> bool)
    requires forall e :: e in ts ==> e.Trade?
    ensures var m, pts := Replay(start, anchor, ts, isToday), TradingPoints(anchor, ts);
      IsDayStart(m.dayStart, pts, ts, isToday) && IsDayLow(m.dailyLow, pts, ts, isToday)
  {
    if ts != [] {
      var init, e := ts[..|ts| - 1], ts[|ts| - 1];
      assert ts == init + [e] && e in ts;
      DayMarksOfTrades(start, anchor, init, isToday);
      MarksOfTrades(start, anchor, init, isToday);
      var m, pts := Replay(start, anchor, init, isToday), TradingPoints(anchor, init);
      ReplaySnoc(start, anchor, init, e, isToday);
      TradingPointsSnoc(anchor, init, e);
      DayStartStep(m.dayStart, pts, init, e, m.tEquity + e.pnl, isToday);
      DayLowStep(m.dailyLow, pts, init, e, m.tEquity + e.pnl, isToday);
    }
  }

  /** The same two marks for a whole account, payouts ignored. */
  lemma DailyDrawdownIsTheDays(rows: seq<TradeRow>, a: AccountInfo, payouts: seq<Payout>, now: int,
                               isToday: int -> bool)
    ensures var ts := Trades(rows); var anchor := Anchor(a, ts, PostAdd(payouts, AddedAt(a, ts, now)));
      var m := Replay(Start(a), anchor, Merged(rows, a, payouts, now), isToday);
      IsDayStart(m.dayStart, TradingPoints(anchor, ts), ts, isToday)
      && IsDayLow(m.dailyLow, TradingPoints(anchor, ts), ts, isToday)
  {
    var ts := Trades(rows);
    var anchor := Anchor(a, ts, PostAdd(payouts, AddedAt(a, ts, now)));
    KindsOf(rows, payouts, 0);
    OnlyTradesMark(Start(a), anchor, Merged(rows, a, payouts, now), isToday);
    MergedTrades(rows, a, payouts, now);
    DayMarksOfTrades(Start(a), anchor, ts, isToday);
  }
}
