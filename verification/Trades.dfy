/** A trade row as the analytics layer reads it, and its outcome in SQL and in JavaScript. */
module Trades {
  import opened Prelude

  datatype Unit = R | USD

  datatype Outcome = Win | Loss | Breakeven

  /** The columns the aggregates read; a nullable column is an Option. */
  datatype Trade = Trade(
    id: int,
    closeTime: int,
    month: int,
    setup: Option<string>,
    fixedR: Option<real>,
    pnlMoney: Option<real>)

  const BE_THRESHOLD: real := 0.1

  function Abs(x: real): real {
    if x < 0.0 then -x else x
  }

  /** `t[field]`, the column the display unit names. */
  function Raw(t: Trade, unit: Unit): Option<real> {
    if unit == USD then t.pnlMoney else t.fixedR
  }

  /** The rows that carry a value in the display unit. */
  function HasRaw(unit: Unit): Trade -> bool {
    t => Raw(t, unit).Some?
  }

  predicate NearZero(t: Trade) {
    t.fixedR.Some? && Abs(t.fixedR.value) <= BE_THRESHOLD
  }

  /** valueSql: what SUM adds for a row. */
  function ValueSql(t: Trade, unit: Unit, beRound: bool): Option<real> {
    if unit == USD || !beRound then Raw(t, unit)
    else if NearZero(t) then Some(0.0)
    else t.fixedR
  }

  /** outcomeSql: the CASE expression, branch by branch. */
  function OutcomeSql(t: Trade, unit: Unit, beRound: bool): Option<Outcome> {
    if Raw(t, unit).None? then None
    else if beRound && NearZero(t) then Some(Breakeven)
    else if Raw(t, unit).value > 0.0 then Some(Win)
    else if Raw(t, unit).value < 0.0 then Some(Loss)
    else Some(Breakeven)
  }

  /** outcomeOf / tradeOutcome on the list the JavaScript holds. */
  function OutcomeOf(t: Trade, unit: Unit, beRound: bool): Option<Outcome> {
    match Raw(t, unit)
    case None => None
    case Some(n) =>
      if beRound && t.fixedR.Some? && Abs(t.fixedR.value) <= BE_THRESHOLD then Some(Breakeven)
      else Some(if n > 0.0 then Win else if n < 0.0 then Loss else Breakeven)
  }

  /** One row of snapBeRounding: a near-zero Fixed R becomes exactly 0. */
  function Snap(t: Trade, beRound: bool): Trade {
    if beRound && NearZero(t) then t.(fixedR := Some(0.0)) else t
  }

  function Snapper(beRound: bool): Trade -> Trade {
    t => Snap(t, beRound)
  }

  function SnapBeRounding(ts: seq<Trade>, beRound: bool): seq<Trade> {
    Map(ts, Snapper(beRound))
  }

  /** The SQL expressions over the stored row are the JavaScript ones over the snapped row. */
  lemma SnappedTwins(t: Trade, unit: Unit, beRound: bool)
    ensures OutcomeOf(Snap(t, beRound), unit, beRound) == OutcomeSql(t, unit, beRound)
    ensures Raw(Snap(t, beRound), unit) == ValueSql(t, unit, beRound)
    ensures ValueSql(t, unit, beRound).None? <==> Raw(t, unit).None?
  {
  }

  // ---- rows in (close_time, id) order ----------------------------------------------------

  predicate RowBefore(a: Trade, b: Trade) {
    a.closeTime < b.closeTime || (a.closeTime == b.closeTime && a.id < b.id)
  }

  /** `ORDER BY close_time, id` over rows whose ids are unique. */
  predicate InCloseOrder(rows: seq<Trade>) {
    forall i, j :: 0 <= i < j < |rows| ==> RowBefore(rows[i], rows[j]) && rows[i].id != rows[j].id
  }
}
