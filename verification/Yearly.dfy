/** Conservation between the analytics views: month-by-setup cells, the equity curve, the R buckets. */
module Yearly {
  import opened Prelude
  import opened Trades
  import opened Perf

  // ---- (month, setup) cells --------------------------------------------------------------

  datatype CellKey = CellKey(mon: int, setup: Option<string>)

  /** A row of `cells`: GROUP BY mon, setup, NULL and '' setups included. */
  datatype Cell = Cell(key: CellKey, agg: Agg)

  function KeyOf(t: Trade): CellKey {
    CellKey(t.month, t.setup)
  }

  function WithKey(k: CellKey): Trade -> bool {
    (t: Trade) => KeyOf(t) == k
  }

  function KeyIn(ks: seq<CellKey>): Trade -> bool {
    (t: Trade) => KeyOf(t) in ks
  }

  ghost predicate IsCells(cells: seq<Cell>, rows: seq<Trade>, unit: Unit, beRound: bool) {
    && (forall i, j :: 0 <= i < j < |cells| ==> cells[i].key != cells[j].key)
    && (forall c :: c in cells ==> c.agg == SqlAgg(Select(rows, WithKey(c.key)), unit, beRound))
    && (forall t :: t in rows ==> exists c :: c in cells && c.key == KeyOf(t))
  }

  function Add(a: Agg, b: Agg): Agg {
    Agg(a.trades + b.trades, a.wins + b.wins, a.losses + b.losses, a.breakeven + b.breakeven, a.rSum + b.rSum)
  }

  /** addCells: the reduce over additive columns. */
  function AddCells(cells: seq<Cell>): Agg {
    if cells == [] then ZERO_AGG else Add(AddCells(cells[..|cells| - 1]), cells[|cells| - 1].agg)
  }

  /** What one row contributes to each column. */
  function One(t: Trade, unit: Unit, beRound: bool): Agg {
    var o := OutcomeSql(t, unit, beRound);
    Agg(if Raw(t, unit).Some? then 1 else 0,
        if o == Some(Win) then 1 else 0,
        if o == Some(Loss) then 1 else 0,
        if o == Some(Breakeven) then 1 else 0,
        OrZero(ValueSql(t, unit, beRound)))
  }

  lemma AggSnoc(rows: seq<Trade>, t: Trade, unit: Unit, beRound: bool)
    ensures SqlAgg(rows + [t], unit, beRound) == Add(SqlAgg(rows, unit, beRound), One(t, unit, beRound))
  {
    assert (rows + [t])[..|rows|] == rows;
  }

  lemma SelectAggSnoc(rows: seq<Trade>, t: Trade, p: Trade -> bool, unit: Unit, beRound: bool)
    ensures SqlAgg(Select(rows + [t], p), unit, beRound)
         == if p(t) then Add(SqlAgg(Select(rows, p), unit, beRound), One(t, unit, beRound))
            else SqlAgg(Select(rows, p), unit, beRound)
  {
    SelectSnoc(rows, t, p);
    AggSnoc(Select(rows, p), t, unit, beRound);
  }

  /** Aggregating a disjoint union of two selections adds their aggregates. */
  lemma {:induction false} AggOfUnion(rows: seq<Trade>, p: Trade -> bool, q: Trade -> bool, r: Trade -> bool,
                                      unit: Unit, beRound: bool)
    requires forall t :: t in rows ==> (r(t) <==> p(t) || q(t)) && !(p(t) && q(t))
    ensures SqlAgg(Select(rows, r), unit, beRound)
         == Add(SqlAgg(Select(rows, p), unit, beRound), SqlAgg(Select(rows, q), unit, beRound))
  {
    if rows != [] {
      var init, t := rows[..|rows| - 1], rows[|rows| - 1];
      assert rows == init + [t] && t in rows;
      assert forall x :: x in init ==> x in rows;
      AggOfUnion(init, p, q, r, unit, beRound);
      SelectAggSnoc(init, t, p, unit, beRound);
      SelectAggSnoc(init, t, q, unit, beRound);
      SelectAggSnoc(init, t, r, unit, beRound);
      AddShuffle(SqlAgg(Select(init, p), unit, beRound), SqlAgg(Select(init, q), unit, beRound),
                 One(t, unit, beRound));
    }
  }

  lemma AddShuffle(a: Agg, b: Agg, c: Agg)
    ensures Add(Add(a, b), c) == Add(Add(a, c), b) == Add(a, Add(b, c))
  {
  }

  lemma {:induction false} SelectSame<T(!new)>(s: seq<T>, p: T -> bool, q: T -> bool)
    requires forall x :: x in s ==> p(x) == q(x)
    ensures Select(s, p) == Select(s, q)
  {
    if s != [] {
      assert s == s[..|s| - 1] + [s[|s| - 1]];
      SelectSame(s[..|s| - 1], p, q);
    }
  }

  function CellKeys(cells: seq<Cell>): seq<CellKey> {
    seq(|cells|, i requires 0 <= i < |cells| => cells[i].key)
  }

  lemma OneMoreKey(rows: seq<Trade>, ks: seq<CellKey>, k: CellKey, unit: Unit, beRound: bool)
    requires k !in ks
    ensures SqlAgg(Select(rows, KeyIn(ks + [k])), unit, beRound)
         == Add(SqlAgg(Select(rows, KeyIn(ks)), unit, beRound), SqlAgg(Select(rows, WithKey(k)), unit, beRound))
  {
    AggOfUnion(rows, KeyIn(ks), WithKey(k), KeyIn(ks + [k]), unit, beRound);
  }

  /** Cells with distinct keys add up to the aggregate over the rows under those keys. */
  lemma {:induction false} CellsAddUp(cells: seq<Cell>, rows: seq<Trade>, unit: Unit, beRound: bool)
    requires forall i, j :: 0 <= i < j < |cells| ==> cells[i].key != cells[j].key
    requires forall c :: c in cells ==> c.agg == SqlAgg(Select(rows, WithKey(c.key)), unit, beRound)
    ensures AddCells(cells) == SqlAgg(Select(rows, KeyIn(CellKeys(cells))), unit, beRound)
  {
    if cells == [] {
      SelectNone(rows, KeyIn(CellKeys(cells)));
    } else {
      var init, c := cells[..|cells| - 1], cells[|cells| - 1];
      assert cells == init + [c] && c in cells;
      CellsAddUp(init, rows, unit, beRound);
      assert CellKeys(cells) == CellKeys(init) + [c.key];
      OneMoreKey(rows, CellKeys(init), c.key, unit, beRound);
    }
  }

  type KeyPred = CellKey -> bool

  function CellWhere(p: KeyPred): Cell -> bool {
    (c: Cell) => p(c.key)
  }

  function RowWhere(p: KeyPred): Trade -> bool {
    (t: Trade) => p(KeyOf(t))
  }

  lemma {:induction false} SelectDistinctKeys(cells: seq<Cell>, p: KeyPred)
    requires forall i, j :: 0 <= i < j < |cells| ==> cells[i].key != cells[j].key
    ensures var s := Select(cells, CellWhere(p)); forall i, j :: 0 <= i < j < |s| ==> s[i].key != s[j].key
  {
    if cells != [] {
      var init, c := cells[..|cells| - 1], cells[|cells| - 1];
      assert cells == init + [c];
      SelectDistinctKeys(init, p);
      SelectSnoc(init, c, CellWhere(p));
      SelectMembers(init, CellWhere(p));
      var s := Select(init, CellWhere(p));
      forall i | 0 <= i < |s| ensures s[i].key != c.key {
        assert s[i] in init;
      }
    }
  }

  /** A total built from cells is the direct aggregate over the trades it covers. */
  lemma TotalsAreDirect(cells: seq<Cell>, rows: seq<Trade>, unit: Unit, beRound: bool, p: KeyPred)
    requires IsCells(cells, rows, unit, beRound)
    ensures AddCells(Select(cells, CellWhere(p))) == SqlAgg(Select(rows, RowWhere(p)), unit, beRound)
  {
    var chosen := Select(cells, CellWhere(p));
    SelectMembers(cells, CellWhere(p));
    SelectDistinctKeys(cells, p);
    CellsAddUp(chosen, rows, unit, beRound);
    var ks := CellKeys(chosen);
    forall t | t in rows ensures KeyIn(ks)(t) == RowWhere(p)(t) {
      if KeyOf(t) in ks {
        var i :| 0 <= i < |ks| && ks[i] == KeyOf(t);
        assert chosen[i] in chosen;
      }
      if p(KeyOf(t)) {
        var c :| c in cells && c.key == KeyOf(t);
        var i :| 0 <= i < |chosen| && chosen[i] == c;
        assert ks[i] == KeyOf(t);
      }
    }
    SelectSame(rows, KeyIn(ks), RowWhere(p));
  }

  function InMonth(mon: int): KeyPred {
    (k: CellKey) => k.mon == mon
  }

  function Always(): KeyPred {
    (k: CellKey) => true
  }

  function Both(p: KeyPred, s: string): KeyPred {
    (k: CellKey) => p(k) && k.setup == Some(s)
  }

  function InSetup(s: string): KeyPred {
    Both(Always(), s)
  }

  function InBoth(mon: int, s: string): KeyPred {
    Both(InMonth(mon), s)
  }

  /** The direct answer for a selection of the year's rows. */
  function Direct(rows: seq<Trade>, unit: Unit, beRound: bool, p: KeyPred): Shape {
    ShapePerf(SqlAgg(Select(rows, RowWhere(p)), unit, beRound))
  }

  /** A property of a matrix row: its label, or the figures of a column. */
  datatype Entry = Label(name: string) | Figures(shape: Shape)

  /** One row of the matrix: 'month' and 'overall' first, then a column per setup assigned over them. */
  type Row = map<string, Entry>

  function MonthName(mon: int): string {
    match mon
    case 1 => "Jan"
    case 2 => "Feb"
    case 3 => "Mar"
    case 4 => "Apr"
    case 5 => "May"
    case 6 => "Jun"
    case 7 => "Jul"
    case 8 => "Aug"
    case 9 => "Sep"
    case 10 => "Oct"
    case 11 => "Nov"
    case _ => "Dec"
  }

  /** `${c.setup ?? ''}`. */
  function SetupLabel(setup: Option<string>): string {
    if setup.Some? then setup.value else ""
  }

  /** The `at` Map: the last cell written under `${mon}|${setup ?? ''}`. */
  ghost predicate IsIndex(at: map<(int, string), Cell>, cells: seq<Cell>) {
    && (forall k :: k in at ==> at[k] in cells && k == (at[k].key.mon, SetupLabel(at[k].key.setup)))
    && (forall c :: c in cells ==> (c.key.mon, SetupLabel(c.key.setup)) in at)
  }

  method IndexCells(cells: seq<Cell>) returns (at: map<(int, string), Cell>)
    ensures IsIndex(at, cells)
  {
    at := map[];
    for i := 0 to |cells|
      invariant IsIndex(at, cells[..i])
    {
      var c := cells[i];
      assert cells[..i + 1] == cells[..i] + [c];
      at := at[(c.key.mon, SetupLabel(c.key.setup)) := c];
    }
    assert cells[..|cells|] == cells;
  }

  function CellAt(at: map<(int, string), Cell>, mon: int, s: string): Agg {
    if (mon, s) in at then at[(mon, s)].agg else ZERO_AGG
  }

  /** A named cell found by label is the cell of that month and setup; a missing one has no rows. */
  lemma LookupIsDirect(at: map<(int, string), Cell>, cells: seq<Cell>, rows: seq<Trade>,
                       unit: Unit, beRound: bool, mon: int, s: string)
    requires IsIndex(at, cells) && IsCells(cells, rows, unit, beRound) && s != ""
    ensures ShapePerf(CellAt(at, mon, s)) == Direct(rows, unit, beRound, InBoth(mon, s))
  {
    if (mon, s) in at {
      var c := at[(mon, s)];
      assert c.key == CellKey(mon, Some(s));
      SelectSame(rows, WithKey(c.key), RowWhere(InBoth(mon, s)));
    } else {
      NoSuchRows(at, cells, rows, unit, beRound, mon, s);
      SelectNone(rows, RowWhere(InBoth(mon, s)));
    }
  }

  lemma NoSuchRows(at: map<(int, string), Cell>, cells: seq<Cell>, rows: seq<Trade>,
                   unit: Unit, beRound: bool, mon: int, s: string)
    requires IsIndex(at, cells) && IsCells(cells, rows, unit, beRound) && (mon, s) !in at
    ensures forall t :: t in rows ==> !RowWhere(InBoth(mon, s))(t)
  {
    forall t | t in rows ensures KeyOf(t) != CellKey(mon, Some(s)) {
      var c :| c in cells && c.key == KeyOf(t);
      assert (c.key.mon, SetupLabel(c.key.setup)) in at;
    }
  }

  /** What a row of the matrix must hold, given its label and the direct answers per setup and overall; a
      setup named "month" or "overall" takes that property over. */
  function RowOf(title: string, setups: seq<string>, overall: Shape, per: string -> Shape): Row {
    map s | s in (set x | x in setups) + {"month", "overall"} ::
      if s in setups then Figures(per(s)) else if s == "overall" then Figures(overall) else Label(title)
  }

  function PerSetup(rows: seq<Trade>, unit: Unit, beRound: bool, mon: int): string -> Shape {
    s => Direct(rows, unit, beRound, InBoth(mon, s))
  }

  function SetupTotal(rows: seq<Trade>, unit: Unit, beRound: bool): string -> Shape {
    s => Direct(rows, unit, beRound, InSetup(s))
  }

  lemma RowStart(title: string, setups: seq<string>, overall: Shape, per: string -> Shape)
    ensures RowOf(title, setups[..0], overall, per) == map["month" := Label(title), "overall" := Figures(overall)]
  {
    assert setups[..0] == [];
  }

  lemma TotalIsDirect(cells: seq<Cell>, rows: seq<Trade>, unit: Unit, beRound: bool)
    requires IsCells(cells, rows, unit, beRound)
    ensures ShapePerf(AddCells(cells)) == Direct(rows, unit, beRound, Always())
  {
    TotalsAreDirect(cells, rows, unit, beRound, Always());
    SelectAll(cells, CellWhere(Always()));
  }

  lemma SetupTotalIsDirect(cells: seq<Cell>, rows: seq<Trade>, unit: Unit, beRound: bool, s: string)
    requires IsCells(cells, rows, unit, beRound)
    ensures ShapePerf(AddCells(Select(cells, CellWhere(InSetup(s))))) == SetupTotal(rows, unit, beRound)(s)
  {
    TotalsAreDirect(cells, rows, unit, beRound, InSetup(s));
  }

  lemma RowStep(title: string, setups: seq<string>, i: nat, overall: Shape, per: string -> Shape)
    requires i < |setups|
    ensures RowOf(title, setups[..i + 1], overall, per)
         == RowOf(title, setups[..i], overall, per)[setups[i] := Figures(per(setups[i]))]
  {
    assert setups[..i + 1] == setups[..i] + [setups[i]];
    assert forall s :: s in setups[..i + 1] <==> s in setups[..i] || s == setups[i];
  }

  /** The row of each month. */
  function MonthOf(setups: seq<string>, rows: seq<Trade>, unit: Unit, beRound: bool): int -> Row {
    mon => RowOf(MonthName(mon), setups, Direct(rows, unit, beRound, InMonth(mon)), PerSetup(rows, unit, beRound, mon))
  }

  function TotalOf(setups: seq<string>, rows: seq<Trade>, unit: Unit, beRound: bool): Row {
    RowOf("TOTAL", setups, Direct(rows, unit, beRound, Always()), SetupTotal(rows, unit, beRound))
  }

  method MonthRow(cells: seq<Cell>, at: map<(int, string), Cell>, setups: seq<string>, mon: int,
                  ghost rows: seq<Trade>, ghost unit: Unit, ghost beRound: bool) returns (row: Row)
    requires IsCells(cells, rows, unit, beRound) && IsIndex(at, cells) && "" !in setups
    ensures row == MonthOf(setups, rows, unit, beRound)(mon)
  {
    ghost var overall, per := Direct(rows, unit, beRound, InMonth(mon)), PerSetup(rows, unit, beRound, mon);
    var name := MonthName(mon);
    var all := ShapePerf(AddCells(Select(cells, CellWhere(InMonth(mon)))));
    row := map["month" := Label(name), "overall" := Figures(all)];
    TotalsAreDirect(cells, rows, unit, beRound, InMonth(mon));
    RowStart(name, setups, overall, per);
    for i := 0 to |setups|
      invariant row == RowOf(name, setups[..i], overall, per)
    {
      var shape := ShapePerf(CellAt(at, mon, setups[i]));
      LookupIsDirect(at, cells, rows, unit, beRound, mon, setups[i]);
      RowStep(name, setups, i, overall, per);
      row := row[setups[i] := Figures(shape)];
    }
    assert setups[..|setups|] == setups;
  }

  method TotalRow(cells: seq<Cell>, setups: seq<string>,
                  ghost rows: seq<Trade>, ghost unit: Unit, ghost beRound: bool) returns (row: Row)
    requires IsCells(cells, rows, unit, beRound)
    ensures row == TotalOf(setups, rows, unit, beRound)
  {
    ghost var overall, per := Direct(rows, unit, beRound, Always()), SetupTotal(rows, unit, beRound);
    row := map["month" := Label("TOTAL"), "overall" := Figures(ShapePerf(AddCells(cells)))];
    TotalIsDirect(cells, rows, unit, beRound);
    RowStart("TOTAL", setups, overall, per);
    for i := 0 to |setups|
      invariant row == RowOf("TOTAL", setups[..i], overall, per)
    {
      var shape := ShapePerf(AddCells(Select(cells, CellWhere(InSetup(setups[i])))));
      SetupTotalIsDirect(cells, rows, unit, beRound, setups[i]);
      RowStep("TOTAL", setups, i, overall, per);
      row := row[setups[i] := Figures(shape)];
    }
    assert setups[..|setups|] == setups;
  }

  // ---- the setup columns -------------------------------------------------------------------

  predicate Named(setup: Option<string>) {
    setup.Some? && setup.value != ""
  }

  function InList(names: seq<string>): string -> bool {
    (s: string) => s in names
  }

  function NotInList(names: seq<string>): string -> bool {
    (s: string) => s !in names
  }

  /** Every named setup present has a column, nothing else has one, and none has two unless the catalog repeats it. */
  ghost predicate AreSetups(setups: seq<string>, present: seq<Option<string>>, catalog: seq<string>) {
    && (forall s :: s in setups <==> s != "" && Some(s) in present)
    && (Distinct(catalog) ==> Distinct(setups))
  }

  ghost predicate AreSeen(seen: seq<string>, present: seq<Option<string>>) {
    Distinct(seen) && forall s :: s in seen <==> s != "" && Some(s) in present
  }

  /** The catalog's names in its order, then names it does not have, collated. */
  ghost predicate CatalogFirst(setups: seq<string>, catalog: seq<string>, collate: string -> real) {
    var n := |Select(catalog, InList(setups))|;
    && n <= |setups| && setups[..n] == Select(catalog, InList(setups))
    && SortedBy(setups[n..], collate)
    && forall s :: s in setups[n..] ==> s !in catalog
  }

  /** orderSetups: the catalog's order first, then the rest by collation (`collate` ranks as localeCompare does). */
  method OrderSetups(present: seq<Option<string>>, catalog: seq<string>, collate: string -> real)
    returns (setups: seq<string>)
    ensures AreSetups(setups, present, catalog)
    ensures CatalogFirst(setups, catalog, collate)
  {
    var seen: seq<string> := [];
    for i := 0 to |present|
      invariant AreSeen(seen, present[..i])
    {
      assert present[..i + 1] == present[..i] + [present[i]];
      if Named(present[i]) && present[i].value !in seen {
        seen := seen + [present[i].value];
      }
    }
    assert present[..|present|] == present;
    var inCatalog := Select(catalog, InList(seen));
    var extras := StableSort(Select(seen, NotInList(catalog)), collate);
    setups := inCatalog + extras;
    ColumnsOf(seen, present, catalog, collate);
    SelectSame(catalog, InList(seen), InList(setups));
    assert setups[..|inCatalog|] == inCatalog && setups[|inCatalog|..] == extras;
  }

  lemma {:induction false} SelectDistinct(s: seq<string>, p: string -> bool)
    requires Distinct(s)
    ensures Distinct(Select(s, p))
  {
    if s != [] {
      var init, x := s[..|s| - 1], s[|s| - 1];
      assert s == init + [x];
      SelectDistinct(init, p);
      SelectSnoc(init, x, p);
      SelectMembers(init, p);
      assert x !in init;
    }
  }

  lemma ColumnsOf(seen: seq<string>, present: seq<Option<string>>, catalog: seq<string>, collate: string -> real)
    requires AreSeen(seen, present)
    ensures var extras := StableSort(Select(seen, NotInList(catalog)), collate);
      && AreSetups(Select(catalog, InList(seen)) + extras, present, catalog)
      && SortedBy(extras, collate) && forall s :: s in extras <==> s in seen && s !in catalog
  {
    var rest := Select(seen, NotInList(catalog));
    SelectMembers(catalog, InList(seen));
    SelectMembers(seen, NotInList(catalog));
    StableSortMembers(rest, collate);
    StableSortSorted(rest, collate);
    SelectDistinct(seen, NotInList(catalog));
    StableSortDistinct(rest, collate);
    if Distinct(catalog) {
      SelectDistinct(catalog, InList(seen));
      DistinctJoin(Select(catalog, InList(seen)), StableSort(rest, collate));
    }
  }

  lemma DistinctJoin(a: seq<string>, b: seq<string>)
    requires Distinct(a) && Distinct(b) && forall x :: x in a ==> x !in b
    ensures Distinct(a + b)
  {
    forall i, j | 0 <= i < j < |a + b| ensures (a + b)[i] != (a + b)[j] {
      if i < |a| <= j {
        assert a[i] in a && b[j - |a|] in b;
      }
    }
  }

  function SetupsOf(cells: seq<Cell>): seq<Option<string>> {
    seq(|cells|, i requires 0 <= i < |cells| => cells[i].key.setup)
  }

  method MonthRows(cells: seq<Cell>, setups: seq<string>, ghost rows: seq<Trade>, ghost unit: Unit, ghost beRound: bool)
    returns (months: seq<Row>)
    requires IsCells(cells, rows, unit, beRound) && "" !in setups
    ensures |months| == 12 && AreMonths(months, MonthOf(setups, rows, unit, beRound))
  {
    var at := IndexCells(cells);
    ghost var want := MonthOf(setups, rows, unit, beRound);
    months := [];
    for m := 0 to 12
      invariant |months| == m && AreMonths(months, want)
    {
      var row := MonthRow(cells, at, setups, m + 1, rows, unit, beRound);
      MonthsSnoc(months, want, row);
      months := months + [row];
    }
  }

  /** January first. */
  ghost predicate AreMonths(months: seq<Row>, want: int -> Row) {
    forall i :: 0 <= i < |months| ==> months[i] == want(i + 1)
  }

  lemma MonthsSnoc(months: seq<Row>, want: int -> Row, row: Row)
    requires AreMonths(months, want) && row == want(|months| + 1)
    ensures AreMonths(months + [row], want)
  {
  }

  /** computeYearly: every month row and the TOTAL row are the direct aggregates of their trades. */
  method ComputeYearly(cells: seq<Cell>, catalog: seq<string>, collate: string -> real,
                       ghost rows: seq<Trade>, ghost unit: Unit, ghost beRound: bool)
    returns (setups: seq<string>, months: seq<Row>, total: Row)
    requires IsCells(cells, rows, unit, beRound)
    ensures AreSetups(setups, SetupsOf(cells), catalog)
    ensures |months| == 12 && AreMonths(months, MonthOf(setups, rows, unit, beRound))
    ensures total == TotalOf(setups, rows, unit, beRound)
  {
    setups := OrderSetups(SetupsOf(cells), catalog, collate);
    months := MonthRows(cells, setups, rows, unit, beRound);
    total := TotalRow(cells, setups, rows, unit, beRound);
  }

  // ---- the columns add up --------------------------------------------------------------------

  /** One column of a row: the aggregate of the setup's trades within `p`. */
  function Column(rows: seq<Trade>, unit: Unit, beRound: bool, p: KeyPred, s: string): Agg {
    SqlAgg(Select(rows, RowWhere(Both(p, s))), unit, beRound)
  }

  function AddColumns(rows: seq<Trade>, unit: Unit, beRound: bool, p: KeyPred, setups: seq<string>): Agg {
    if setups == [] then ZERO_AGG
    else
      Add(AddColumns(rows, unit, beRound, p, setups[..|setups| - 1]),
          Column(rows, unit, beRound, p, setups[|setups| - 1]))
  }

  function InAny(p: KeyPred, setups: seq<string>): KeyPred {
    (k: CellKey) => p(k) && k.setup.Some? && k.setup.value in setups
  }

  function Unnamed(p: KeyPred): KeyPred {
    (k: CellKey) => p(k) && !Named(k.setup)
  }

  lemma {:induction false} ColumnsCover(rows: seq<Trade>, unit: Unit, beRound: bool, p: KeyPred, setups: seq<string>)
    requires Distinct(setups)
    ensures AddColumns(rows, unit, beRound, p, setups)
         == SqlAgg(Select(rows, RowWhere(InAny(p, setups))), unit, beRound)
  {
    if setups == [] {
      SelectNone(rows, RowWhere(InAny(p, setups)));
    } else {
      var init, s := setups[..|setups| - 1], setups[|setups| - 1];
      assert setups == init + [s] && s !in init;
      ColumnsCover(rows, unit, beRound, p, init);
      AggOfUnion(rows, RowWhere(InAny(p, init)), RowWhere(Both(p, s)), RowWhere(InAny(p, setups)), unit, beRound);
    }
  }

  lemma SetupHasColumn(cells: seq<Cell>, rows: seq<Trade>, unit: Unit, beRound: bool, setups: seq<string>,
                       catalog: seq<string>, t: Trade)
    requires IsCells(cells, rows, unit, beRound) && AreSetups(setups, SetupsOf(cells), catalog)
    requires t in rows && Named(t.setup)
    ensures t.setup.value in setups
  {
    var c :| c in cells && c.key == KeyOf(t);
    var i :| 0 <= i < |cells| && cells[i] == c;
    assert SetupsOf(cells)[i] == t.setup;
  }

  /** A row's setup columns and the trades without a setup add up to its overall column, whichever months it spans. */
  lemma ColumnsAddUp(cells: seq<Cell>, rows: seq<Trade>, unit: Unit, beRound: bool, setups: seq<string>,
                     catalog: seq<string>, p: KeyPred)
    requires IsCells(cells, rows, unit, beRound) && AreSetups(setups, SetupsOf(cells), catalog) && Distinct(catalog)
    ensures SqlAgg(Select(rows, RowWhere(p)), unit, beRound)
         == Add(AddColumns(rows, unit, beRound, p, setups),
                SqlAgg(Select(rows, RowWhere(Unnamed(p))), unit, beRound))
  {
    ColumnsCover(rows, unit, beRound, p, setups);
    forall t | t in rows && Named(t.setup) ensures t.setup.value in setups {
      SetupHasColumn(cells, rows, unit, beRound, setups, catalog, t);
    }
    NamedOrNot(rows, unit, beRound, setups, p);
  }

  lemma NamedOrNot(rows: seq<Trade>, unit: Unit, beRound: bool, setups: seq<string>, p: KeyPred)
    requires "" !in setups && forall t :: t in rows && Named(t.setup) ==> t.setup.value in setups
    ensures SqlAgg(Select(rows, RowWhere(p)), unit, beRound)
         == Add(SqlAgg(Select(rows, RowWhere(InAny(p, setups))), unit, beRound),
                SqlAgg(Select(rows, RowWhere(Unnamed(p))), unit, beRound))
  {
    var r, named, rest := RowWhere(p), RowWhere(InAny(p, setups)), RowWhere(Unnamed(p));
    forall t | t in rows ensures (r(t) <==> named(t) || rest(t)) && !(named(t) && rest(t)) {
      assert named(t) == (p(KeyOf(t)) && t.setup.Some? && t.setup.value in setups);
      assert rest(t) == (p(KeyOf(t)) && !Named(t.setup));
      assert r(t) == p(KeyOf(t));
    }
    AggOfUnion(rows, named, rest, r, unit, beRound);
  }

  // ---- two setup names that take a property over ------------------------------------------------

  function Of(id: int, setup: string): Trade {
    Trade(id, id, 1, Some(setup), Some(1.0), None)
  }

  /** Two January trades, one of a setup named `name`. */
  function Two(name: string): seq<Trade> {
    [Of(1, name), Of(2, "B")]
  }

  lemma {:induction false} AllScored(rows: seq<Trade>)
    requires forall t :: t in rows ==> t.fixedR.Some?
    ensures CountRaw(rows, R) == |rows|
  {
    if rows != [] {
      assert rows[|rows| - 1] in rows;
      AllScored(rows[..|rows| - 1]);
    }
  }

  lemma SelectedOfTwo(a: Trade, b: Trade, p: Trade -> bool)
    requires p(a)
    ensures Select([a, b], p) == if p(b) then [a, b] else [a]
  {
    assert [] + [a] == [a] && [a] + [b] == [a, b];
    SelectSnoc([], a, p);
    SelectSnoc([a], b, p);
  }

  lemma CountsOfTwo(name: string, p: KeyPred)
    requires p(KeyOf(Of(1, name)))
    ensures Direct(Two(name), R, false, p).trades == if p(KeyOf(Of(2, "B"))) then 2 else 1
  {
    SelectedOfTwo(Of(1, name), Of(2, "B"), RowWhere(p));
    AllScored(Select(Two(name), RowWhere(p)));
  }

  /** With a setup named "overall" the total row's overall column counts that setup's one trade, not both; with
      one named "month" its label is gone. */
  lemma NamesClash()
    ensures var row := TotalOf(["overall", "B"], Two("overall"), R, false); var entry := row["overall"];
      entry.Figures? && entry.shape.trades == 1 && Direct(Two("overall"), R, false, Always()).trades == 2
    ensures TotalOf(["month", "B"], Two("month"), R, false)["month"] != Label("TOTAL")
  {
    CountsOfTwo("overall", Always());
    CountsOfTwo("overall", InSetup("overall"));
    assert ["overall", "B"][0] == "overall" && ["month", "B"][0] == "month";
  }

  // ---- the equity curve ------------------------------------------------------------------

  /** SUM(val) OVER (ORDER BY close_time, id ROWS UNBOUNDED PRECEDING), for the scored rows. */
  function EquityPoints(rows: seq<Trade>, unit: Unit, beRound: bool): seq<real> {
    var scored := Select(rows, HasRaw(unit));
    seq(|scored|, i requires 0 <= i < |scored| => SumVal(scored[..i + 1], unit, beRound))
  }

  lemma {:induction false} ScoredRowsCarryTheSum(rows: seq<Trade>, unit: Unit, beRound: bool)
    ensures SumVal(Select(rows, HasRaw(unit)), unit, beRound) == SumVal(rows, unit, beRound)
    ensures |Select(rows, HasRaw(unit))| == CountRaw(rows, unit)
  {
    if rows != [] {
      var init, t := rows[..|rows| - 1], rows[|rows| - 1];
      assert rows == init + [t];
      ScoredRowsCarryTheSum(init, unit, beRound);
      SelectSnoc(init, t, HasRaw(unit));
      assert (Select(init, HasRaw(unit)) + [t])[..|Select(init, HasRaw(unit))|] == Select(init, HasRaw(unit));
    }
  }

  /** One point per headline trade, each step adds that trade, and the curve ends on the headline sum. */
  lemma EquityEndsOnHeadline(rows: seq<Trade>, unit: Unit, beRound: bool)
    ensures var points, headline := EquityPoints(rows, unit, beRound), SqlAgg(rows, unit, beRound);
      && |points| == headline.trades
      && (points != [] ==> points[|points| - 1] == headline.rSum)
      && (points == [] ==> headline.rSum == 0.0)
      && forall i :: 0 < i < |points| ==>
           points[i] - points[i - 1] == OrZero(ValueSql(Select(rows, HasRaw(unit))[i], unit, beRound))
  {
    var scored := Select(rows, HasRaw(unit));
    ScoredRowsCarryTheSum(rows, unit, beRound);
    assert scored[..|scored|] == scored;
    var points := EquityPoints(rows, unit, beRound);
    forall i | 0 < i < |points|
      ensures points[i] - points[i - 1] == OrZero(ValueSql(scored[i], unit, beRound))
    {
      PointStep(scored, i, unit, beRound);
    }
  }

  lemma PointStep(scored: seq<Trade>, i: nat, unit: Unit, beRound: bool)
    requires i < |scored|
    ensures SumVal(scored[..i + 1], unit, beRound)
         == SumVal(scored[..i], unit, beRound) + OrZero(ValueSql(scored[i], unit, beRound))
  {
    assert scored[..i + 1][..i] == scored[..i];
  }

  // ---- the R distribution ----------------------------------------------------------------

  /** The FILTER of each r_dist column, on r_val. */
  predicate InBucket(b: nat, r: real) {
    match b
    case 0 => r <= -1.0
    case 1 => r > -1.0 && r < 0.0
    case 2 => r == 0.0
    case 3 => r > 0.0 && r <= 1.0
    case 4 => r > 1.0 && r <= 2.0
    case 5 => r > 2.0 && r <= 3.0
    case 6 => r > 3.0
    case _ => false
  }

  function BucketRow(b: nat, beRound: bool): Trade -> bool {
    (t: Trade) => t.fixedR.Some? && InBucket(b, OrZero(ValueSql(t, R, beRound)))
  }

  function RDist(rows: seq<Trade>, beRound: bool, b: nat): nat {
    |Select(rows, BucketRow(b, beRound))|
  }

  /** What each column holds, from the row's own Fixed R: below -1 inclusive, the losses above it, the
      breakevens, three bands one R wide, and everything beyond 3. */
  predicate FallsIn(t: Trade, beRound: bool, b: nat) {
    t.fixedR.Some?
    && var r := if beRound && -0.1 <= t.fixedR.value <= 0.1 then 0.0 else t.fixedR.value;
      if b == 0 then r <= -1.0
      else if b == 1 then -1.0 < r < 0.0
      else if b == 2 then r == 0.0
      else if b == 6 then r > 3.0
      else b in {3, 4, 5} && (b - 3) as real < r <= (b - 2) as real
  }

  function Places(rows: seq<Trade>, beRound: bool, b: nat): set<nat> {
    set i: nat | i < |rows| && FallsIn(rows[i], beRound, b)
  }

  lemma SameBand(t: Trade, beRound: bool, b: nat)
    ensures BucketRow(b, beRound)(t) <==> FallsIn(t, beRound, b)
  {
  }

  lemma PlacesSnoc(rows: seq<Trade>, t: Trade, beRound: bool, b: nat)
    ensures |Places(rows + [t], beRound, b)|
         == |Places(rows, beRound, b)| + (if FallsIn(t, beRound, b) then 1 else 0)
  {
    var was, now := Places(rows, beRound, b), Places(rows + [t], beRound, b);
    if FallsIn(t, beRound, b) {
      assert (rows + [t])[|rows|] == t;
      assert now == was + {|rows|};
    } else {
      assert now == was;
    }
  }

  lemma {:induction false} ColumnHolds(rows: seq<Trade>, beRound: bool, b: nat)
    ensures RDist(rows, beRound, b) == |Places(rows, beRound, b)|
  {
    if rows == [] {
      assert Places(rows, beRound, b) == {};
    } else {
      var init, t := rows[..|rows| - 1], rows[|rows| - 1];
      assert rows == init + [t];
      ColumnHolds(init, beRound, b);
      SelectSnoc(init, t, BucketRow(b, beRound));
      SameBand(t, beRound, b);
      PlacesSnoc(init, t, beRound, b);
    }
  }

  /** The seven columns partition the rows that carry an R, and the breakeven column absorbs exactly
      the rows the rounding snaps together with the exact zeros. */
  lemma {:induction false} BucketsPartition(rows: seq<Trade>, beRound: bool)
    ensures RDist(rows, beRound, 0) + RDist(rows, beRound, 1) + RDist(rows, beRound, 2) + RDist(rows, beRound, 3)
      + RDist(rows, beRound, 4) + RDist(rows, beRound, 5) + RDist(rows, beRound, 6) == CountRaw(rows, R)
    ensures RDist(rows, beRound, 2) == CountOutcome(rows, R, beRound, Breakeven)
  {
    if rows != [] {
      var init, t := rows[..|rows| - 1], rows[|rows| - 1];
      assert rows == init + [t];
      BucketsPartition(init, beRound);
      forall b: nat | b < 7 ensures RDist(rows, beRound, b)
        == RDist(init, beRound, b) + (if BucketRow(b, beRound)(t) then 1 else 0)
      {
        SelectSnoc(init, t, BucketRow(b, beRound));
      }
    }
  }
}
