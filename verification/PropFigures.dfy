/** What the figures computeProp reports say about the rows, payouts and account it was given. */
module PropFigures {
  import opened Prelude
  import opened Drawdown

  // ---- sums over the inputs --------------------------------------------------------------------

  /** Realized money over the rows that carry any. */
  function Pnl(rows: seq<TradeRow>): real {
    if rows == [] then 0.0
    else
      var t := rows[|rows| - 1];
      Pnl(rows[..|rows| - 1]) + (if t.pnlMoney.Some? then t.pnlMoney.value else 0.0)
  }

  /** Money withdrawn by the dated, positive payouts on or after a day. */
  function Withdrawn(payouts: seq<Payout>, from: int): real {
    if payouts == [] then 0.0
    else
      var p := payouts[|payouts| - 1];
      Withdrawn(payouts[..|payouts| - 1], from)
      + (if p.gross > 0.0 && p.date.Some? && p.date.value >= from then p.gross else 0.0)
  }

  lemma {:induction false} TradesTotal(rows: seq<TradeRow>)
    ensures Total(Map(Select(rows, HasPnl()), ToTrade())) == Pnl(rows)
  {
    if rows != [] {
      var init, t := rows[..|rows| - 1], rows[|rows| - 1];
      assert rows == init + [t];
      TradesTotal(init);
      SelectSnoc(init, t, HasPnl());
      if t.pnlMoney.Some? {
        OneTradeMore(Select(init, HasPnl()), t);
      }
    }
  }

  lemma OneTradeMore(kept: seq<TradeRow>, t: TradeRow)
    requires t.pnlMoney.Some?
    ensures Total(Map(kept + [t], ToTrade())) == Total(Map(kept, ToTrade())) + t.pnlMoney.value
  {
    assert Map(kept + [t], ToTrade()) == Map(kept, ToTrade()) + [ToTrade()(t)];
    TotalSnoc(Map(kept, ToTrade()), ToTrade()(t));
  }

  lemma {:induction false} PayoutsTotal(payouts: seq<Payout>, from: int)
    ensures Total(Drawn(payouts, from)) == -Withdrawn(payouts, from)
  {
    if payouts != [] {
      var init, p := payouts[..|payouts| - 1], payouts[|payouts| - 1];
      assert payouts == init + [p];
      PayoutsTotal(init, from);
      DrawnSnoc(init, p, from);
    }
  }

  // ---- when the account was added ----------------------------------------------------------------

  /** The day the account was added: its own date, else its first scored close, else today. */
  ghost predicate IsAddedAt(at: int, rows: seq<TradeRow>, a: AccountInfo, now: int) {
    if a.createdAt.Some? then at == a.createdAt.value
    else if forall t :: t in rows ==> t.pnlMoney.None? then at == now
    else
      && (exists t :: t in rows && t.pnlMoney.Some? && t.closeTime == at)
      && (forall t :: t in rows && t.pnlMoney.Some? ==> at <= t.closeTime)
  }

  lemma TradesAre(rows: seq<TradeRow>)
    ensures SortedBy(Trades(rows), ByDate())
    ensures forall t :: t in rows && t.pnlMoney.Some? ==> Trade(t.closeTime, t.pnlMoney.value) in Trades(rows)
    ensures forall e :: e in Trades(rows) ==>
      exists t :: t in rows && t.pnlMoney.Some? && e == Trade(t.closeTime, t.pnlMoney.value)
  {
    var scored := Select(rows, HasPnl());
    var unsorted := Map(scored, ToTrade());
    SelectMembers(rows, HasPnl());
    StableSortMembers(unsorted, ByDate());
    StableSortSorted(unsorted, ByDate());
    forall t | t in rows && t.pnlMoney.Some? ensures Trade(t.closeTime, t.pnlMoney.value) in Trades(rows) {
      var i :| 0 <= i < |scored| && scored[i] == t;
      assert unsorted[i] in unsorted;
    }
    forall e | e in Trades(rows)
      ensures exists t :: t in rows && t.pnlMoney.Some? && e == Trade(t.closeTime, t.pnlMoney.value)
    {
      var i :| 0 <= i < |unsorted| && unsorted[i] == e;
      assert scored[i] in scored;
    }
  }

  lemma AddedAtIs(rows: seq<TradeRow>, a: AccountInfo, now: int)
    ensures IsAddedAt(AddedAt(a, Trades(rows), now), rows, a, now)
  {
    TradesAre(rows);
    var ts := Trades(rows);
    if a.createdAt.None? {
      if ts == [] {
        forall t | t in rows ensures t.pnlMoney.None? {
        }
      } else {
        assert ts[0] in ts;
        forall t | t in rows && t.pnlMoney.Some? ensures ts[0].date <= t.closeTime {
          var e := Trade(t.closeTime, t.pnlMoney.value);
          var i :| 0 <= i < |ts| && ts[i] == e;
          assert i > 0 ==> ByDate()(ts[0]) <= ByDate()(ts[i]);
        }
      }
    }
  }

  predicate InDateOrder(es: seq<Event>) {
    forall i, j :: 0 <= i < j < |es| ==> es[i].date <= es[j].date
  }

  /** A trade that carries money, on the day it closed. */
  ghost predicate IsTradeOf(e: Event, rows: seq<TradeRow>) {
    exists t :: t in rows && t.pnlMoney.Some? && e == Trade(t.closeTime, t.pnlMoney.value)
  }

  /** A dated payout of a positive amount, not before the account was added. */
  ghost predicate IsPayoutOf(e: Event, payouts: seq<Payout>, added: int) {
    exists p :: p in payouts && p.gross > 0.0 && p.date.Some? && p.date.value >= added
             && e == Withdrawal(p.date.value, p.gross)
  }

  lemma PayoutsAre(payouts: seq<Payout>, added: int, e: Event)
    ensures e in PostAdd(payouts, added) <==> IsPayoutOf(e, payouts, added)
  {
    var counted := Select(payouts, Counts(added));
    SelectMembers(payouts, Counts(added));
    StableSortMembers(Drawn(payouts, added), ByDate());
    if e in Drawn(payouts, added) {
      var i :| 0 <= i < |counted| && Drawn(payouts, added)[i] == e;
      assert counted[i] in counted;
    }
    if p :| (p in payouts && p.gross > 0.0 && p.date.Some? && p.date.value >= added
             && e == Withdrawal(p.date.value, p.gross)) {
      var i :| 0 <= i < |counted| && counted[i] == p;
      assert Drawn(payouts, added)[i] == e;
    }
  }

  /** The stream the curve follows: in date order, exactly the trades and the payouts after the add point, the
      trades in their own date order, as many events as the two lists together. */
  lemma StreamIs(rows: seq<TradeRow>, a: AccountInfo, payouts: seq<Payout>, now: int)
    ensures var es := Merged(rows, a, payouts, now); var added := AddedAt(a, Trades(rows), now);
      && InDateOrder(es) && InDateOrder(Trades(rows)) && Select(es, IsTrade()) == Trades(rows)
      && |es| == |Trades(rows)| + |PostAdd(payouts, added)|
      && forall e :: e in es <==> IsTradeOf(e, rows) || IsPayoutOf(e, payouts, added)
  {
    var ts, added := Trades(rows), AddedAt(a, Trades(rows), now);
    var post := PostAdd(payouts, added);
    TradesAre(rows);
    StableSortSorted(ts + post, ByDate());
    StableSortMembers(ts + post, ByDate());
    MergedTrades(rows, a, payouts, now);
    DateOrder(ts);
    DateOrder(Merged(rows, a, payouts, now));
    forall e ensures e in Merged(rows, a, payouts, now) <==> IsTradeOf(e, rows) || IsPayoutOf(e, payouts, added) {
      PayoutsAre(payouts, added, e);
    }
  }

  lemma DateOrder(es: seq<Event>)
    requires SortedBy(es, ByDate())
    ensures InDateOrder(es)
  {
    forall i, j | 0 <= i < j < |es| ensures es[i].date <= es[j].date {
      assert ByDate()(es[i]) <= ByDate()(es[j]);
    }
  }

  // ---- equity, step by step ----------------------------------------------------------------------

  /** A list of balances that starts at `anchor` and moves by each event: up by a trade's money, down by a
      payout's. */
  ghost predicate Follows(pts: seq<real>, anchor: real, es: seq<Event>) {
    && |pts| == |es| + 1 && pts[0] == anchor
    && forall k :: 0 <= k < |es| ==> Moves(pts, es, k)
  }

  predicate Moves(pts: seq<real>, es: seq<Event>, k: int)
    requires |pts| == |es| + 1
  {
    0 <= k < |es| ==>
      pts[k + 1] - pts[k] == match es[k] case Trade(_, pnl) => pnl case Withdrawal(_, gross) => -gross
  }

  lemma {:induction false} CurveFollows(anchor: real, es: seq<Event>)
    ensures Follows(Curve(anchor, es), anchor, es)
  {
    forall k: nat | k <= |es|
      ensures |Curve(anchor, es)| == |es| + 1 && Curve(anchor, es)[k] == anchor + Total(es[..k])
    {
      CurveAt(anchor, es, k);
    }
    assert es[..0] == [];
    forall k | 0 <= k < |es| ensures Moves(Curve(anchor, es), es, k) {
      assert es[..k + 1] == es[..k] + [es[k]];
      TotalSnoc(es[..k], es[k]);
    }
  }

  lemma {:induction false} TradingFollows(anchor: real, ts: seq<Event>)
    ensures Follows(TradingPoints(anchor, ts), anchor, ts)
  {
    if ts != [] {
      var init, e := ts[..|ts| - 1], ts[|ts| - 1];
      assert ts == init + [e];
      TradingFollows(anchor, init);
      TradingPointsSnoc(anchor, init, e);
      var before, pts := TradingPoints(anchor, init), TradingPoints(anchor, ts);
      forall k | 0 <= k < |ts| ensures Moves(pts, ts, k) {
        assert k < |init| ==> Moves(before, init, k) && pts[k + 1] == before[k + 1] && pts[k] == before[k];
      }
    }
  }

  // ---- daily loss --------------------------------------------------------------------------------

  /** `k0` is the day's first trade. */
  predicate IsFirstToday(ts: seq<Event>, isToday: int -> bool, k0: int) {
    0 <= k0 < |ts| && isToday(ts[k0].date) && forall j :: 0 <= j < k0 ==> !isToday(ts[j].date)
  }

  /** What is used of the daily limit: the largest fall from the equity the day opened on to a close of the
      day, and nothing when no trade closed today or none closed lower. */
  ghost predicate IsDailyLoss(used: real, pts: seq<real>, ts: seq<Event>, isToday: int -> bool)
    requires |pts| == |ts| + 1
  {
    && ((forall k :: 0 <= k < |ts| ==> !isToday(ts[k].date)) ==> used == 0.0)
    && forall k0 :: IsFirstToday(ts, isToday, k0) ==>
         && used >= 0.0
         && (forall k :: 0 <= k < |ts| && isToday(ts[k].date) ==> used >= Opens(pts, k0) - Closes(pts, k))
         && (used == 0.0
             || exists k :: 0 <= k < |ts| && isToday(ts[k].date) && used == Opens(pts, k0) - Closes(pts, k))
  }

  lemma MarksGiveDailyLoss(m: Marks, pts: seq<real>, ts: seq<Event>, isToday: int -> bool)
    requires |pts| == |ts| + 1 && IsDayStart(m.dayStart, pts, ts, isToday) && IsDayLow(m.dailyLow, pts, ts, isToday)
    ensures IsDailyLoss(DailyUsed(m), pts, ts, isToday)
  {
    forall k ensures 0 <= k < |ts| && isToday(ts[k].date) <==> Today(ts, isToday, k) {
    }
    if m.dayStart.Some? && m.dailyLow.Some? {
      var first :| Today(ts, isToday, first) && Opens(pts, first) == m.dayStart.value
        && forall j :: 0 <= j < first ==> !Today(ts, isToday, j);
      var low :| Today(ts, isToday, low) && Closes(pts, low) == m.dailyLow.value;
      forall k0 | IsFirstToday(ts, isToday, k0) ensures k0 == first {
        assert Today(ts, isToday, k0);
      }
    }
  }

  /** The equity before and after trade `k`. */
  lemma OpensAndCloses(pts: seq<real>, k: int)
    requires 0 <= k && k + 1 < |pts|
    ensures Opens(pts, k) == pts[k] && Closes(pts, k) == pts[k + 1]
  {
  }

  // ---- the whole report --------------------------------------------------------------------------

  /** Start, anchor, balance and result, from the inputs alone. */
  ghost predicate IsBalance(f: Figures, rows: seq<TradeRow>, a: AccountInfo, payouts: seq<Payout>, added: int) {
    && f.start == (if a.startBalance.Some? && a.startBalance.value != 0.0 then a.startBalance.value else 50000.0)
    && f.live == a.balance.Some?
    && f.anchor == (if f.live then a.balance.value - Pnl(rows) + Withdrawn(payouts, added) else f.start)
    && f.finalEquity == (if f.live then a.balance.value else f.start + Pnl(rows) - Withdrawn(payouts, added))
    && f.currentBalance == f.finalEquity && f.netPnl == f.finalEquity - f.start
  }

  /** Whatever is reported, the balances add up, the curve follows the events and lands on the final equity, and
      both drawdowns are falls of trading equity: the largest of all, and the day's. */
  lemma FiguresMean(f: Figures, rows: seq<TradeRow>, a: AccountInfo, payouts: seq<Payout>, now: int,
                    isToday: int -> bool) returns (added: int)
    requires Reports(f, rows, a, payouts, now, isToday)
    ensures IsAddedAt(added, rows, a, now) && IsBalance(f, rows, a, payouts, added)
    ensures Follows(f.curve, f.anchor, Merged(rows, a, payouts, now)) && f.curve[|f.curve| - 1] == f.finalEquity
    ensures var ts := Trades(rows); var pts := TradingPoints(f.anchor, ts);
      && Follows(pts, f.anchor, ts)
      && IsMaxDrawdown(f.maxUsed, [f.start] + pts)
      && IsDailyLoss(f.dailyUsed, pts, ts, isToday)
  {
    var ts := Trades(rows);
    added := AddedAt(a, ts, now);
    AddedAtIs(rows, a, now);
    BalanceOf(f, rows, a, payouts, now, isToday);
    CurveFollows(f.anchor, Merged(rows, a, payouts, now));
    CurveAt(f.anchor, Merged(rows, a, payouts, now), |Merged(rows, a, payouts, now)|);
    assert Merged(rows, a, payouts, now)[..|Merged(rows, a, payouts, now)|] == Merged(rows, a, payouts, now);
    TradingFollows(f.anchor, ts);
    DrawdownsOf(f, rows, a, payouts, now, isToday);
  }

  lemma BalanceOf(f: Figures, rows: seq<TradeRow>, a: AccountInfo, payouts: seq<Payout>, now: int,
                  isToday: int -> bool)
    requires Reports(f, rows, a, payouts, now, isToday)
    ensures IsBalance(f, rows, a, payouts, AddedAt(a, Trades(rows), now))
  {
    var added := AddedAt(a, Trades(rows), now);
    TradesTotal(rows);
    TotalSorted(Map(Select(rows, HasPnl()), ToTrade()), ByDate());
    PayoutsTotal(payouts, added);
    TotalSorted(Drawn(payouts, added), ByDate());
    CurveLandsOnBalance(rows, a, payouts, now);
  }

  lemma DrawdownsOf(f: Figures, rows: seq<TradeRow>, a: AccountInfo, payouts: seq<Payout>, now: int,
                    isToday: int -> bool)
    requires Reports(f, rows, a, payouts, now, isToday)
    ensures var ts := Trades(rows); var pts := TradingPoints(f.anchor, ts);
      |pts| == |ts| + 1 && IsMaxDrawdown(f.maxUsed, [f.start] + pts) && IsDailyLoss(f.dailyUsed, pts, ts, isToday)
  {
    var ts := Trades(rows);
    TradingFollows(f.anchor, ts);
    MaxDrawdownIsHighWater(rows, a, payouts, now, isToday);
    DailyDrawdownIsTheDays(rows, a, payouts, now, isToday);
    MarksGiveDailyLoss(Replay(f.start, f.anchor, Merged(rows, a, payouts, now), isToday),
                       TradingPoints(f.anchor, ts), ts, isToday);
  }
}
