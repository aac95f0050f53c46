/** PERF_AGG and shapePerf against perf, over one list of rows. */
module Perf {
  import opened Prelude
  import opened Trades

  // ---- one row set -----------------------------------------------------------------------

  /** The five columns of PERF_AGG. */
  datatype Agg = Agg(trades: nat, wins: nat, losses: nat, breakeven: nat, rSum: real)

  datatype Shape = Shape(trades: nat, wins: nat, losses: nat, breakeven: nat, sr: Option<real>, r: real)

  const ZERO_AGG := Agg(0, 0, 0, 0, 0.0)

  /** count(*) FILTER (WHERE outcome = o). */
  function CountOutcome(rows: seq<Trade>, unit: Unit, beRound: bool, o: Outcome): nat {
    if rows == [] then 0
    else
      CountOutcome(rows[..|rows| - 1], unit, beRound, o)
      + (if OutcomeSql(rows[|rows| - 1], unit, beRound) == Some(o) then 1 else 0)
  }

  /** count(*) FILTER (WHERE raw IS NOT NULL). */
  function CountRaw(rows: seq<Trade>, unit: Unit): nat {
    if rows == [] then 0
    else CountRaw(rows[..|rows| - 1], unit) + (if Raw(rows[|rows| - 1], unit).Some? then 1 else 0)
  }

  function OrZero(v: Option<real>): real {
    if v.Some? then v.value else 0.0
  }

  /** COALESCE(SUM(val), 0): SUM skips NULLs. */
  function SumVal(rows: seq<Trade>, unit: Unit, beRound: bool): real {
    if rows == [] then 0.0
    else
      SumVal(rows[..|rows| - 1], unit, beRound) + OrZero(ValueSql(rows[|rows| - 1], unit, beRound))
  }

  function SqlAgg(rows: seq<Trade>, unit: Unit, beRound: bool): Agg {
    Agg(CountRaw(rows, unit),
        CountOutcome(rows, unit, beRound, Win),
        CountOutcome(rows, unit, beRound, Loss),
        CountOutcome(rows, unit, beRound, Breakeven),
        SumVal(rows, unit, beRound))
  }

  /** round(n, 2) on exact numbers: Math.round is half-up. */
  function Round(n: real): real {
    (n * 100.0 + 0.5).Floor as real / 100.0
  }

  function ShapePerf(row: Agg): Shape {
    Shape(row.trades, row.wins, row.losses, row.breakeven,
          if row.trades > 0 then Some(Round(100.0 * row.wins as real / row.trades as real)) else None,
          Round(row.rSum))
  }

  function HasOutcome(unit: Unit, beRound: bool, o: Outcome): Trade -> bool {
    t => OutcomeOf(t, unit, beRound) == Some(o)
  }

  function Numeric(unit: Unit): Trade -> real {
    t => OrZero(Raw(t, unit))
  }

  /** perf(list, field, beRound). */
  function PerfOf(list: seq<Trade>, unit: Unit, beRound: bool): Shape {
    var scored := Select(list, HasRaw(unit));
    var wins := Select(scored, HasOutcome(unit, beRound, Win));
    var losses := Select(scored, HasOutcome(unit, beRound, Loss));
    var breakeven := Select(scored, HasOutcome(unit, beRound, Breakeven));
    var r := Sum(Map(scored, Numeric(unit)));
    Shape(|scored|, |wins|, |losses|, |breakeven|,
          if |scored| > 0 then Some(Round(100.0 * |wins| as real / |scored| as real)) else None,
          Round(r))
  }

  lemma MapSnoc<T, U>(s: seq<T>, x: T, f: T -> U)
    ensures Map(s + [x], f) == Map(s, f) + [f(x)]
  {
  }

  lemma SnapSnoc(rows: seq<Trade>, t: Trade, beRound: bool)
    ensures SnapBeRounding(rows + [t], beRound) == SnapBeRounding(rows, beRound) + [Snap(t, beRound)]
  {
    MapSnoc(rows, t, Snapper(beRound));
  }

  /** The rows perf() scores. */
  function ScoredList(rows: seq<Trade>, unit: Unit, beRound: bool): seq<Trade> {
    Select(SnapBeRounding(rows, beRound), HasRaw(unit))
  }

  lemma ScoredSnoc(rows: seq<Trade>, t: Trade, unit: Unit, beRound: bool)
    ensures ScoredList(rows + [t], unit, beRound)
         == if Raw(t, unit).Some? then ScoredList(rows, unit, beRound) + [Snap(t, beRound)]
            else ScoredList(rows, unit, beRound)
  {
    SnapSnoc(rows, t, beRound);
    SelectSnoc(SnapBeRounding(rows, beRound), Snap(t, beRound), HasRaw(unit));
  }

  lemma CountStep(rows: seq<Trade>, t: Trade, unit: Unit, beRound: bool, o: Outcome)
    ensures |Select(ScoredList(rows + [t], unit, beRound), HasOutcome(unit, beRound, o))|
         == |Select(ScoredList(rows, unit, beRound), HasOutcome(unit, beRound, o))|
          + (if OutcomeSql(t, unit, beRound) == Some(o) then 1 else 0)
  {
    ScoredSnoc(rows, t, unit, beRound);
    SelectSnoc(ScoredList(rows, unit, beRound), Snap(t, beRound), HasOutcome(unit, beRound, o));
    SnappedTwins(t, unit, beRound);
  }

  lemma SumStep(rows: seq<Trade>, t: Trade, unit: Unit, beRound: bool)
    ensures var before, after := ScoredList(rows, unit, beRound), ScoredList(rows + [t], unit, beRound);
      && |after| == |before| + (if Raw(t, unit).Some? then 1 else 0)
      && Sum(Map(after, Numeric(unit))) == Sum(Map(before, Numeric(unit))) + OrZero(ValueSql(t, unit, beRound))
  {
    ScoredSnoc(rows, t, unit, beRound);
    SnappedTwins(t, unit, beRound);
    if Raw(t, unit).Some? {
      MapSnoc(ScoredList(rows, unit, beRound), Snap(t, beRound), Numeric(unit));
      SumSnoc(Map(ScoredList(rows, unit, beRound), Numeric(unit)), Numeric(unit)(Snap(t, beRound)));
    }
  }

  lemma {:induction false} CountsAgree(rows: seq<Trade>, unit: Unit, beRound: bool, o: Outcome)
    ensures |Select(ScoredList(rows, unit, beRound), HasOutcome(unit, beRound, o))|
         == CountOutcome(rows, unit, beRound, o)
  {
    if rows == [] {
      assert SnapBeRounding(rows, beRound) == [];
    } else {
      var init, t := rows[..|rows| - 1], rows[|rows| - 1];
      assert rows == init + [t];
      CountsAgree(init, unit, beRound, o);
      CountStep(init, t, unit, beRound, o);
    }
  }

  lemma {:induction false} SumsAgree(rows: seq<Trade>, unit: Unit, beRound: bool)
    ensures var scored := ScoredList(rows, unit, beRound);
      |scored| == CountRaw(rows, unit) && Sum(Map(scored, Numeric(unit))) == SumVal(rows, unit, beRound)
  {
    if rows == [] {
      assert SnapBeRounding(rows, beRound) == [];
      assert Map<Trade, real>([], Numeric(unit)) == [];
    } else {
      var init, t := rows[..|rows| - 1], rows[|rows| - 1];
      assert rows == init + [t];
      SumsAgree(init, unit, beRound);
      SumStep(init, t, unit, beRound);
    }
  }

  /** The promise of the SQL layer: shapePerf of the aggregates is perf of the snapped rows. */
  lemma ShapedAggregatesArePerf(rows: seq<Trade>, unit: Unit, beRound: bool)
    ensures ShapePerf(SqlAgg(rows, unit, beRound)) == PerfOf(SnapBeRounding(rows, beRound), unit, beRound)
  {
    SumsAgree(rows, unit, beRound);
    CountsAgree(rows, unit, beRound, Win);
    CountsAgree(rows, unit, beRound, Loss);
    CountsAgree(rows, unit, beRound, Breakeven);
  }

  /** Every scored row is a win, a loss or a breakeven, and only one of them. */
  lemma {:induction false} OutcomesPartition(rows: seq<Trade>, unit: Unit, beRound: bool)
    ensures var a := SqlAgg(rows, unit, beRound); a.wins + a.losses + a.breakeven == a.trades
  {
    if rows != [] {
      OutcomesPartition(rows[..|rows| - 1], unit, beRound);
      var t := rows[|rows| - 1];
      if Raw(t, unit).Some? {
        assert OutcomeSql(t, unit, beRound) in {Some(Win), Some(Loss), Some(Breakeven)};
      }
    }
  }

  // ---- what the figures are, from the rows' own columns -----------------------------------

  /** The number a row carries in the display unit. */
  predicate Carries(t: Trade, unit: Unit, v: real) {
    match unit
    case USD => t.pnlMoney == Some(v)
    case R => t.fixedR == Some(v)
  }

  predicate CarriesNothing(t: Trade, unit: Unit) {
    match unit
    case USD => t.pnlMoney.None?
    case R => t.fixedR.None?
  }

  /** Break-even rounding: a Fixed R within a tenth either way is neither won nor lost. */
  predicate RoundsToEven(t: Trade, beRound: bool) {
    beRound && t.fixedR.Some? && -0.1 <= t.fixedR.value <= 0.1
  }

  function Times(b: bool): nat {
    if b then 1 else 0
  }

  /** One row more that carries `v`. */
  predicate Scores(was: Agg, v: real, even: bool, now: Agg) {
    && now.trades == was.trades + 1
    && now.wins == was.wins + Times(!even && v > 0.0)
    && now.losses == was.losses + Times(!even && v < 0.0)
    && now.breakeven == was.breakeven + Times(even || v == 0.0)
    && now.rSum == was.rSum + v
  }

  ghost predicate Counts(was: Agg, t: Trade, unit: Unit, beRound: bool, now: Agg) {
    && (CarriesNothing(t, unit) ==> now == was)
    && (forall v :: Carries(t, unit, v) ==> Scores(was, v, RoundsToEven(t, beRound), now))
  }

  ghost predicate OneMore(was: Agg, t: Trade, keep: Trade -> bool, unit: Unit, beRound: bool, now: Agg) {
    if keep(t) then Counts(was, t, unit, beRound, now) else now == was
  }

  /** The running figures over the rows of `list` that `keep` keeps. */
  ghost predicate Tallies(list: seq<Trade>, keep: Trade -> bool, unit: Unit, beRound: bool, runs: seq<Agg>) {
    && |runs| == |list| + 1
    && runs[0] == Agg(0, 0, 0, 0, 0.0)
    && forall i :: 0 <= i < |list| ==> OneMore(runs[i], list[i], keep, unit, beRound, runs[i + 1])
  }

  /** `r` is `x` to the nearest hundredth, the upper one of two equally near. */
  ghost predicate IsRounded(r: real, x: real) {
    && (r * 100.0).Floor as real == r * 100.0
    && x - 0.005 < r <= x + 0.005
  }

  /** perf's object, over the final figures. */
  ghost predicate Shows(s: Shape, a: Agg) {
    && s.trades == a.trades && s.wins == a.wins && s.losses == a.losses && s.breakeven == a.breakeven
    && (s.sr.None? <==> a.trades == 0)
    && (s.sr.Some? && a.trades > 0 ==> IsRounded(s.sr.value, 100.0 * a.wins as real / a.trades as real))
    && IsRounded(s.r, a.rSum)
  }

  lemma RoundIsNearest(x: real)
    ensures IsRounded(Round(x), x)
  {
    assert Round(x) * 100.0 == (x * 100.0 + 0.5).Floor as real;
  }

  /** The figures of perf before rounding. */
  function Figures(list: seq<Trade>, unit: Unit, beRound: bool): Agg {
    var scored := Select(list, HasRaw(unit));
    Agg(|scored|,
        |Select(scored, HasOutcome(unit, beRound, Win))|,
        |Select(scored, HasOutcome(unit, beRound, Loss))|,
        |Select(scored, HasOutcome(unit, beRound, Breakeven))|,
        Sum(Map(scored, Numeric(unit))))
  }

  lemma OutcomeStep(scored: seq<Trade>, t: Trade, unit: Unit, beRound: bool, o: Outcome, v: real)
    requires Carries(t, unit, v)
    ensures |Select(scored + [t], HasOutcome(unit, beRound, o))|
         == |Select(scored, HasOutcome(unit, beRound, o))|
          + Times(match o
                  case Win => !RoundsToEven(t, beRound) && v > 0.0
                  case Loss => !RoundsToEven(t, beRound) && v < 0.0
                  case Breakeven => RoundsToEven(t, beRound) || v == 0.0)
  {
    SelectSnoc(scored, t, HasOutcome(unit, beRound, o));
  }

  lemma FiguresStep(list: seq<Trade>, t: Trade, unit: Unit, beRound: bool)
    ensures Counts(Figures(list, unit, beRound), t, unit, beRound, Figures(list + [t], unit, beRound))
  {
    var scored := Select(list, HasRaw(unit));
    SelectSnoc(list, t, HasRaw(unit));
    if Raw(t, unit).Some? {
      var v := Raw(t, unit).value;
      OutcomeStep(scored, t, unit, beRound, Win, v);
      OutcomeStep(scored, t, unit, beRound, Loss, v);
      OutcomeStep(scored, t, unit, beRound, Breakeven, v);
      MapSnoc(scored, t, Numeric(unit));
      SumSnoc(Map(scored, Numeric(unit)), Numeric(unit)(t));
      assert Scores(Figures(list, unit, beRound), v, RoundsToEven(t, beRound), Figures(list + [t], unit, beRound));
    }
  }

  lemma KeptStep(list: seq<Trade>, t: Trade, keep: Trade -> bool, unit: Unit, beRound: bool)
    ensures OneMore(Figures(Select(list, keep), unit, beRound), t, keep, unit, beRound,
                    Figures(Select(list + [t], keep), unit, beRound))
  {
    SelectSnoc(list, t, keep);
    if keep(t) {
      FiguresStep(Select(list, keep), t, unit, beRound);
    }
  }

  lemma TalliesSnoc(list: seq<Trade>, t: Trade, keep: Trade -> bool, unit: Unit, beRound: bool,
                    runs: seq<Agg>, now: Agg)
    requires Tallies(list, keep, unit, beRound, runs) && OneMore(runs[|list|], t, keep, unit, beRound, now)
    ensures Tallies(list + [t], keep, unit, beRound, runs + [now])
  {
  }

  lemma {:induction false} RunningFigures(list: seq<Trade>, keep: Trade -> bool, unit: Unit, beRound: bool)
    returns (runs: seq<Agg>)
    ensures Tallies(list, keep, unit, beRound, runs)
    ensures runs[|list|] == Figures(Select(list, keep), unit, beRound)
  {
    if list == [] {
      assert Map<Trade, real>([], Numeric(unit)) == [];
      runs := [Agg(0, 0, 0, 0, 0.0)];
    } else {
      var init, t := list[..|list| - 1], list[|list| - 1];
      assert list == init + [t];
      var sofar := RunningFigures(init, keep, unit, beRound);
      KeptStep(init, t, keep, unit, beRound);
      runs := sofar + [Figures(Select(list, keep), unit, beRound)];
      TalliesSnoc(init, t, keep, unit, beRound, sofar, runs[|list|]);
    }
  }

  /** perf of a selection: every kept row that carries a number counts once, by its own columns. */
  lemma PerfMeans(list: seq<Trade>, keep: Trade -> bool, unit: Unit, beRound: bool) returns (runs: seq<Agg>)
    ensures Tallies(list, keep, unit, beRound, runs)
    ensures Shows(PerfOf(Select(list, keep), unit, beRound), runs[|list|])
  {
    runs := RunningFigures(list, keep, unit, beRound);
    var a := Figures(Select(list, keep), unit, beRound);
    RoundIsNearest(a.rSum);
    if a.trades > 0 {
      RoundIsNearest(100.0 * a.wins as real / a.trades as real);
    }
  }
}
