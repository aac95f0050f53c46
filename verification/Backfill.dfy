/** backfillAccount end to end: windows, pages, rows, batches and upserts composed. */
module Backfill {
  import opened Prelude
  import opened Windows
  import opened Paging
  import opened Ingest
  import opened Origins

  /** Closing deals of the book in a span, as table keys. */
  ghost predicate ClosedIn(book: seq<Deal>, low: int, high: int, login: int, k: (int, int)) {
    exists d :: d in book && d.closing && low <= d.ts <= high && k == (login, d.dealId)
  }

  /** The walk: stops early only on two empty windows in a row with no registration date. */
  ghost predicate Walked(windows: seq<Window>, walked: nat, book: seq<Deal>, registeredAt: Option<int>) {
    && walked <= |windows|
    && (walked < |windows| ==>
          registeredAt.None? && walked >= 2
          && Reached(book, windows[walked - 1]) == [] && Reached(book, windows[walked - 2]) == [])
  }

  /** What the first `walked` windows brought in, and the table the rows not refused left. */
  ghost predicate Gathered(all: seq<Deal>, payloads: seq<Payload>, book: seq<Deal>, windows: seq<Window>,
                           walked: nat, login: int, rejects: Payload -> bool, before: Table, after: Table) {
    && walked <= |windows| && Descending(windows)
    && FromWindows(all, book, windows[..walked])
    && OneRowEach(payloads, all, login)
    && OpenersKnown(payloads, book, windows[..walked], login)
    && Traced(payloads, book, windows[..walked], login)
    && after == UpsertAll(before, Accepted(payloads, rejects))
  }

  lemma GatherNothing(all: seq<Deal>, payloads: seq<Payload>, book: seq<Deal>, windows: seq<Window>,
                      walked: nat, login: int, rejects: Payload -> bool, before: Table, after: Table)
    requires IsBook(book) && Gathered(all, payloads, book, windows, walked, login, rejects, before, after)
    requires walked < |windows| && SameDeals([], Reached(book, windows[walked]))
    ensures Gathered(all, payloads, book, windows, walked + 1, login, rejects, before, after)
    ensures Reached(book, windows[walked]) == []
  {
    FromWindowsSnoc(all, [], book, windows[..walked], windows[walked]);
    assert windows[..walked + 1] == windows[..walked] + [windows[walked]];
    NothingReached([], Reached(book, windows[walked]));
    OpenersAppend(payloads, windows[..walked], [], [windows[walked]], book, login);
    TracedAppend(payloads, windows[..walked], [], [windows[walked]], book, login);
    assert all + [] == all && payloads + [] == payloads;
  }

  lemma GatherMore(all: seq<Deal>, payloads: seq<Payload>, book: seq<Deal>, windows: seq<Window>,
                   walked: nat, login: int, rejects: Payload -> bool, before: Table, after: Table,
                   deals: seq<Deal>, owner: Option<int>)
    requires IsBook(book) && Gathered(all, payloads, book, windows, walked, login, rejects, before, after)
    requires walked < |windows| && SameDeals(deals, Reached(book, windows[walked]))
    ensures var trades := TradesOf(StableSort(deals, ByTime()), login, owner);
      Gathered(all + deals, payloads + trades, book, windows, walked + 1, login, rejects, before,
               UpsertAll(after, Accepted(trades, rejects)))
  {
    var trades := TradesOf(StableSort(deals, ByTime()), login, owner);
    FromWindowsSnoc(all, deals, book, windows[..walked], windows[walked]);
    assert windows[..walked + 1] == windows[..walked] + [windows[walked]];
    RowsOfSorted(deals, login, owner);
    RowsAppend(payloads, all, trades, deals, login);
    WindowIsBelow(trades, deals, book, windows, walked, login);
    WindowKnows(deals, book, windows[walked], login, owner);
    OpenersAppend(payloads, windows[..walked], trades, [windows[walked]], book, login);
    WindowTraces(deals, book, windows[walked], login, owner);
    TracedAppend(payloads, windows[..walked], trades, [windows[walked]], book, login);
    AcceptedAppend(payloads, trades, rejects);
    UpsertAllAppend(before, Accepted(payloads, rejects), Accepted(trades, rejects));
  }

  /** Both of the last two windows, or the last one, came back empty. */
  predicate EmptyRun(emptyRun: nat, walked: nat, book: seq<Deal>, windows: seq<Window>)
    requires walked <= |windows|
  {
    && emptyRun <= walked
    && (emptyRun >= 1 ==> Reached(book, windows[walked - 1]) == [])
    && (emptyRun >= 2 ==> Reached(book, windows[walked - 2]) == [])
  }

  /** Walk an account's history and post it. `payloads` is everything posted, in order. */
  method BackfillAccount(table: TradeTable, book: seq<Deal>, now: int, registeredAt: Option<int>,
                         cursorAt: Option<int>, login: int, owner: Option<int>, rejects: Payload -> bool)
    returns (posted: nat, windows: seq<Window>, ghost all: seq<Deal>, ghost payloads: seq<Payload>, walked: nat)
    requires IsBook(book)
    modifies table
    ensures windows == Walk(Top(now, cursorAt), Floor(Top(now, cursorAt), registeredAt), MAX_WINDOWS)
    ensures Walked(windows, walked, book, registeredAt)
    ensures FromWindows(all, book, windows[..walked])
    ensures OneRowEach(payloads, all, login) && OpenersKnown(payloads, book, windows[..walked], login)
    ensures Traced(payloads, book, windows[..walked], login)
    ensures table.rows == UpsertAll(old(table.rows), Accepted(payloads, rejects)) && posted == |payloads|
  {
    windows := BackfillWindows(now, registeredAt, cursorAt);
    WalkDescends(now, registeredAt, cursorAt);
    posted, all, payloads, walked := WalkWindows(table, book, windows, registeredAt, login, owner, rejects);
  }

  /** Its loop. */
  method WalkWindows(table: TradeTable, book: seq<Deal>, windows: seq<Window>, registeredAt: Option<int>,
                     login: int, owner: Option<int>, rejects: Payload -> bool)
    returns (posted: nat, ghost all: seq<Deal>, ghost payloads: seq<Payload>, walked: nat)
    requires IsBook(book) && Descending(windows)
    modifies table
    ensures Walked(windows, walked, book, registeredAt) && posted == |payloads|
    ensures Gathered(all, payloads, book, windows, walked, login, rejects, old(table.rows), table.rows)
  {
    posted := 0;
    var emptyRun := 0;
    all, payloads, walked := [], [], 0;
    GatherStart(book, windows, login, rejects, table.rows);
    while walked < |windows|
      invariant Gathered(all, payloads, book, windows, walked, login, rejects, old(table.rows), table.rows)
      invariant EmptyRun(emptyRun, walked, book, windows)
      invariant posted == |payloads|
    {
      var n, empty;
      n, empty, all, payloads :=
        OneWindow(table, book, windows, walked, login, owner, rejects, all, payloads, old(table.rows));
      EmptyRunStep(emptyRun, walked, book, windows, empty);
      posted, walked := posted + n, walked + 1;
      if empty {
        emptyRun := emptyRun + 1;
        if emptyRun >= 2 && registeredAt == None {
          break;
        }
        continue;
      }
      emptyRun := 0;
    }
  }

  /** One turn of it: fetch, turn into rows, post. */
  method OneWindow(table: TradeTable, book: seq<Deal>, windows: seq<Window>, walked: nat, login: int,
                   owner: Option<int>, rejects: Payload -> bool,
                   ghost all: seq<Deal>, ghost payloads: seq<Payload>, ghost before: Table)
    returns (n: nat, empty: bool, ghost all': seq<Deal>, ghost payloads': seq<Payload>)
    requires IsBook(book) && walked < |windows|
    requires Gathered(all, payloads, book, windows, walked, login, rejects, before, table.rows)
    modifies table
    ensures Gathered(all', payloads', book, windows, walked + 1, login, rejects, before, table.rows)
    ensures |payloads'| == |payloads| + n && (empty ==> Reached(book, windows[walked]) == [])
  {
    n, all', payloads' := 0, all, payloads;
    var deals := FetchWindow(book, windows[walked].from, windows[walked].to);
    empty := deals == [];
    if empty {
      GatherNothing(all, payloads, book, windows, walked, login, rejects, before, table.rows);
      return;
    }
    GatherMore(all, payloads, book, windows, walked, login, rejects, before, table.rows, deals, owner);
    n := PostWindow(table, deals, login, owner, rejects);
    all', payloads' := all + deals, payloads + TradesOf(StableSort(deals, ByTime()), login, owner);
  }

  lemma GatherStart(book: seq<Deal>, windows: seq<Window>, login: int, rejects: Payload -> bool, before: Table)
    requires Descending(windows)
    ensures Gathered([], [], book, windows, 0, login, rejects, before, before)
  {
  }

  lemma EmptyRunStep(emptyRun: nat, walked: nat, book: seq<Deal>, windows: seq<Window>, empty: bool)
    requires walked < |windows| && EmptyRun(emptyRun, walked, book, windows)
    requires empty ==> Reached(book, windows[walked]) == []
    ensures EmptyRun(if empty then emptyRun + 1 else 0, walked + 1, book, windows)
  {
  }

  lemma WalkDescends(now: int, registeredAt: Option<int>, cursorAt: Option<int>)
    ensures Descending(Walk(Top(now, cursorAt), Floor(Top(now, cursorAt), registeredAt), MAX_WINDOWS))
  {
    var top := Top(now, cursorAt);
    var floor := Floor(top, registeredAt);
    BackfillTiles(now, registeredAt, cursorAt);
    TilesDescend(Walk(top, floor, MAX_WINDOWS), Low(top, floor, MAX_WINDOWS), top);
  }

  method PostWindow(table: TradeTable, deals: seq<Deal>, login: int, owner: Option<int>, rejects: Payload -> bool)
    returns (n: nat)
    modifies table
    ensures var trades := TradesOf(StableSort(deals, ByTime()), login, owner);
      table.rows == UpsertAll(old(table.rows), Accepted(trades, rejects)) && n == |trades|
  {
    var trades := DealsToTrades(deals, login, owner);
    n := table.PostAll(trades, rejects);
  }

  lemma NothingReached(deals: seq<Deal>, reached: seq<Deal>)
    requires deals == [] && SameDeals(deals, reached)
    ensures reached == []
  {
    FirstIsMember(reached);
  }

  // ---- the exactly-once theorem ----------------------------------------------------------

  lemma AllIsTheSpan(all: seq<Deal>, book: seq<Deal>, windows: seq<Window>, low: int, high: int)
    requires FromWindows(all, book, windows) && windows != [] && Tiles(windows, low, high)
    requires forall j :: 0 <= j < |windows| ==> Complete(book, windows[j])
    ensures forall d :: d in all <==> d in book && low <= d.ts <= high
  {
    forall d ensures d in all <==> d in book && low <= d.ts <= high {
      if d in all {
        var j :| 0 <= j < |windows| && d in Reached(book, windows[j]);
        ReachedInside(book, windows[j], d);
        TilesInside(windows, low, high, j);
      }
      if d in book && low <= d.ts <= high {
        var j := TilesCover(windows, low, high, d.ts);
        ReachedInside(book, windows[j], d);
      }
    }
  }

  /** Some row that was not refused has this key. */
  ghost predicate Stored(kept: seq<Payload>, k: (int, int)) {
    exists p :: p in kept && KeyOf(p) == k
  }

  /** No row sent under this key was refused. */
  ghost predicate Clean(payloads: seq<Payload>, rejects: Payload -> bool, k: (int, int)) {
    forall p :: p in payloads && KeyOf(p) == k ==> !rejects(p)
  }

  /** `after` is `before` with one row for each closing deal of the span whose row was accepted, carrying that
      deal's time and figures, and nothing else added, changed or lost. */
  ghost predicate HoldsSpan(before: Table, after: Table, book: seq<Deal>, low: int, high: int, login: int,
                            payloads: seq<Payload>, rejects: Payload -> bool) {
    && (forall k :: k in after <==> k in before || Stored(Accepted(payloads, rejects), k))
    && (forall k :: Stored(Accepted(payloads, rejects), k) ==> ClosedIn(book, low, high, login, k))
    && (forall k :: ClosedIn(book, low, high, login, k) && Clean(payloads, rejects, k) ==>
          Stored(Accepted(payloads, rejects), k))
    && (forall k :: k in before && !Stored(Accepted(payloads, rejects), k) ==> after[k] == before[k])
    && (forall d :: (d in book && d.closing && low <= d.ts <= high
          && Stored(Accepted(payloads, rejects), (login, d.dealId))) ==> Carries(after, d, login))
  }

  /** When nothing is refused the keys gained are exactly the closing deals. */
  lemma NothingRefused(before: Table, after: Table, book: seq<Deal>, low: int, high: int, login: int,
                       payloads: seq<Payload>, rejects: Payload -> bool)
    requires HoldsSpan(before, after, book, low, high, login, payloads, rejects)
    requires forall p :: p in payloads ==> !rejects(p)
    ensures forall k :: k in after <==> k in before || ClosedIn(book, low, high, login, k)
  {
    forall k | ClosedIn(book, low, high, login, k) ensures k in after {
      assert Clean(payloads, rejects, k);
    }
  }

  predicate Carries(t: Table, d: Deal, login: int) {
    && (login, d.dealId) in t
    && t[(login, d.dealId)].mech.closeTime == d.ts && t[(login, d.dealId)].mech.figures == d.figures
  }

  predicate HasOpener(t: Table, o: Deal, d: Deal, login: int) {
    (login, d.dealId) in t && IsClosed(t[(login, d.dealId)].mech, o, d)
  }

  /** Wherever a window holds a position's opening deal with its closing one, the row has that opener's
      side and time. */
  ghost predicate HoldsOpeners(after: Table, book: seq<Deal>, windows: seq<Window>, login: int,
                               payloads: seq<Payload>, rejects: Payload -> bool) {
    forall j, o, d :: (0 <= j < |windows| && Opens(book, windows[j], o, d)
      && Clean(payloads, rejects, (login, d.dealId))) ==> HasOpener(after, o, d, login)
  }

  /** `o` opened what `d` closes: it is the position's oldest opening deal anywhere. */
  ghost predicate OpenedIt(book: seq<Deal>, o: Deal, d: Deal) {
    && o in book && d in book && d.closing && !o.closing && o.positionId == d.positionId && o.ts < d.ts
    && forall x :: x in book && !x.closing && x.positionId == d.positionId && x != o ==> o.ts < x.ts
  }

  predicate Together(book: seq<Deal>, windows: seq<Window>, o: Deal, d: Deal) {
    exists j :: 0 <= j < |windows| && InWindow(book, windows[j], o) && InWindow(book, windows[j], d)
  }

  /** No window that holds `d` holds an opening deal of its position as old as it. */
  ghost predicate Unopened(book: seq<Deal>, windows: seq<Window>, d: Deal) {
    forall j, x :: (0 <= j < |windows| && InWindow(book, windows[j], d) && InWindow(book, windows[j], x)
      && !x.closing && x.positionId == d.positionId) ==> x.ts > d.ts
  }

  /** With every window of the span complete, the rows posted leave exactly the span's closing deals, each
      once and as the deals say. */
  lemma ExactlyOnce(before: Table, book: seq<Deal>, windows: seq<Window>, low: int, high: int,
                    all: seq<Deal>, payloads: seq<Payload>, login: int, rejects: Payload -> bool)
    requires IsBook(book) && windows != [] && Tiles(windows, low, high)
    requires forall j :: 0 <= j < |windows| ==> Complete(book, windows[j])
    requires FromWindows(all, book, windows) && OneRowEach(payloads, all, login)
    requires OpenersKnown(payloads, book, windows, login)
    ensures HoldsSpan(before, UpsertAll(before, Accepted(payloads, rejects)), book, low, high, login, payloads, rejects)
    ensures HoldsOpeners(UpsertAll(before, Accepted(payloads, rejects)), book, windows, login, payloads, rejects)
    ensures forall d :: d in book && d.closing && low <= d.ts <= high ==> HasRow(d, payloads, login)
  {
    AllIsTheSpan(all, book, windows, low, high);
    OneRowIsEnough(before, book, low, high, all, payloads, login, rejects);
    OpenersAreStored(before, book, windows, payloads, login, rejects);
  }

  lemma KeptLast(payloads: seq<Payload>, rejects: Payload -> bool, k: (int, int))
    requires Clean(payloads, rejects, k)
    ensures Last(Accepted(payloads, rejects), k, MechCol()) == Last(payloads, k, MechCol())
  {
    if payloads != [] {
      var init, p := payloads[..|payloads| - 1], payloads[|payloads| - 1];
      assert payloads == init + [p];
      KeptLast(init, rejects, k);
      SelectSnoc(init, p, Not(rejects));
      var kept := Accepted(init, rejects);
      assert (kept + [p])[..|kept|] == kept;
    }
  }

  lemma OpenersAreStored(before: Table, book: seq<Deal>, windows: seq<Window>, payloads: seq<Payload>, login: int,
                         rejects: Payload -> bool)
    requires OpenersKnown(payloads, book, windows, login)
    requires forall j :: 0 <= j < |windows| ==> Complete(book, windows[j])
    ensures HoldsOpeners(UpsertAll(before, Accepted(payloads, rejects)), book, windows, login, payloads, rejects)
  {
    var kept := Accepted(payloads, rejects);
    forall j, o, d | 0 <= j < |windows| && Opens(book, windows[j], o, d) && Clean(payloads, rejects, (login, d.dealId))
      ensures HasOpener(UpsertAll(before, kept), o, d, login)
    {
      var k := (login, d.dealId);
      ReachedInside(book, windows[j], d);
      assert Complete(book, windows[j]) && d in Reached(book, windows[j]);
      assert Decided(Last(payloads, k, MechCol()), o, d);
      KeptLast(payloads, rejects, k);
      UpsertColumns(before, kept, k);
      assert Settled(before, kept, k, UpsertAll(before, kept));
    }
  }

  /** The row of a closing deal has its position's opening side and time exactly when some window holds both
      deals. A position held across a window edge is filed without them. */
  lemma OpenerStoredExactly(before: Table, book: seq<Deal>, windows: seq<Window>, payloads: seq<Payload>, login: int,
                            rejects: Payload -> bool, o: Deal, d: Deal)
    requires IsBook(book) && forall j :: 0 <= j < |windows| ==> Complete(book, windows[j])
    requires OpenersKnown(payloads, book, windows, login) && Traced(payloads, book, windows, login)
    requires OpenedIt(book, o, d) && Clean(payloads, rejects, (login, d.dealId))
    requires Stored(Accepted(payloads, rejects), (login, d.dealId))
    ensures HasOpener(UpsertAll(before, Accepted(payloads, rejects)), o, d, login) <==> Together(book, windows, o, d)
  {
    OpenersAreStored(before, book, windows, payloads, login, rejects);
    if j :| 0 <= j < |windows| && InWindow(book, windows[j], o) && InWindow(book, windows[j], d) {
      assert Opens(book, windows[j], o, d);
    }
    if HasOpener(UpsertAll(before, Accepted(payloads, rejects)), o, d, login) {
      var j, opener := StoredFrom(before, book, windows, payloads, login, rejects, d);
      assert opener.Some? && opener.value.ts == o.ts;
      ReachedInside(book, windows[j], d);
      ReachedInside(book, windows[j], opener.value);
      assert opener.value == o;
    }
  }

  /** And where no window that holds it holds an opening deal, the row says buy, opened when it closed. */
  lemma UnopenedIsFiledAsBuy(before: Table, book: seq<Deal>, windows: seq<Window>, payloads: seq<Payload>, login: int,
                             rejects: Payload -> bool, d: Deal)
    requires IsBook(book) && Traced(payloads, book, windows, login)
    requires d in book && d.closing && Unopened(book, windows, d)
    requires Stored(Accepted(payloads, rejects), (login, d.dealId))
    ensures var after := UpsertAll(before, Accepted(payloads, rejects));
      (login, d.dealId) in after && after[(login, d.dealId)].mech == Mech(false, d.ts, d.ts, d.figures)
  {
    var j, opener := StoredFrom(before, book, windows, payloads, login, rejects, d);
    ReachedInside(book, windows[j], d);
    if opener.Some? {
      ReachedInside(book, windows[j], opener.value);
      assert false;
    }
  }

  /** The row stored for `d` was made in one window, with an opening deal of that window or none. */
  lemma StoredFrom(before: Table, book: seq<Deal>, windows: seq<Window>, payloads: seq<Payload>, login: int,
                   rejects: Payload -> bool, d: Deal) returns (j: nat, opener: Option<Deal>)
    requires IsBook(book) && d in book && Traced(payloads, book, windows, login)
    requires Stored(Accepted(payloads, rejects), (login, d.dealId))
    ensures j < |windows| && d in Reached(book, windows[j]) && OpenedBy(opener, d, Reached(book, windows[j]))
    ensures var after := UpsertAll(before, Accepted(payloads, rejects));
      (login, d.dealId) in after && IsRowOf(after[(login, d.dealId)].mech, opener, d)
  {
    var kept, k := Accepted(payloads, rejects), (login, d.dealId);
    UpsertColumns(before, kept, k);
    assert Settled(before, kept, k, UpsertAll(before, kept));
    var p := LastWriter(kept, k);
    SelectMembers(payloads, Not(rejects));
    assert MadeInSome(p, book, windows, login);
    j :| 0 <= j < |windows| && MadeIn(p, Reached(book, windows[j]), login);
    var e;
    e, opener :| e in Reached(book, windows[j]) && e.closing && OpenedBy(opener, e, Reached(book, windows[j]))
      && KeyOf(p) == (login, e.dealId) && IsRowOf(p.mech, opener, e);
    ReachedInside(book, windows[j], e);
    IdsAreUnique(book, d, e);
  }

  lemma OneRowIsEnough(before: Table, book: seq<Deal>, low: int, high: int, all: seq<Deal>, payloads: seq<Payload>,
                       login: int, rejects: Payload -> bool)
    requires IsBook(book) && OneRowEach(payloads, all, login)
    requires forall d :: d in all <==> d in book && low <= d.ts <= high
    ensures HoldsSpan(before, UpsertAll(before, Accepted(payloads, rejects)), book, low, high, login, payloads, rejects)
  {
    var kept := Accepted(payloads, rejects);
    var after := UpsertAll(before, kept);
    SelectMembers(payloads, Not(rejects));
    forall k
      ensures k in after <==> k in before || Stored(kept, k)
      ensures k in before && !Stored(kept, k) ==> after[k] == before[k]
    {
      UpsertColumns(before, kept, k);
    }
    forall k
      ensures Stored(kept, k) ==> ClosedIn(book, low, high, login, k)
      ensures ClosedIn(book, low, high, login, k) && Clean(payloads, rejects, k) ==> Stored(kept, k)
    {
      KeysAreClosed(book, low, high, all, payloads, login, k);
    }
    forall d | d in book && d.closing && low <= d.ts <= high && Stored(kept, (login, d.dealId))
      ensures Carries(after, d, login)
    {
      RowIsTheDeals(before, book, all, payloads, login, rejects, d);
    }
  }

  lemma KeysAreClosed(book: seq<Deal>, low: int, high: int, all: seq<Deal>, payloads: seq<Payload>, login: int,
                      k: (int, int))
    requires OneRowEach(payloads, all, login)
    requires forall d :: d in all <==> d in book && low <= d.ts <= high
    ensures (exists p :: p in payloads && KeyOf(p) == k) <==> ClosedIn(book, low, high, login, k)
  {
    if p :| p in payloads && KeyOf(p) == k {
      assert HasSource(p, all, login);
      var d :| d in all && d.closing && ComesFrom(p, d, login);
      assert d in book;
    }
    if ClosedIn(book, low, high, login, k) {
      var d :| d in book && d.closing && low <= d.ts <= high && k == (login, d.dealId);
      assert d in all && HasRow(d, payloads, login);
      var p :| p in payloads && ComesFrom(p, d, login);
      assert KeyOf(p) == k;
    }
  }

  lemma RowIsTheDeals(before: Table, book: seq<Deal>, all: seq<Deal>, payloads: seq<Payload>, login: int,
                      rejects: Payload -> bool, d: Deal)
    requires IsBook(book) && (forall x :: x in all ==> x in book) && OneRowEach(payloads, all, login)
    requires d in all && Stored(Accepted(payloads, rejects), (login, d.dealId))
    ensures Carries(UpsertAll(before, Accepted(payloads, rejects)), d, login)
  {
    var kept, k := Accepted(payloads, rejects), (login, d.dealId);
    UpsertColumns(before, kept, k);
    var p := LastWriter(kept, k);
    SelectMembers(payloads, Not(rejects));
    assert HasSource(p, all, login);
    var e :| e in all && e.closing && ComesFrom(p, e, login);
    IdsAreUnique(book, d, e);
  }

  /** Within what 200 pages get through, a window is complete exactly when no millisecond of it fills a page
      by itself with more to come. */
  lemma CompleteExactly(book: seq<Deal>, w: Window, most: nat)
    requires IsBook(book) && most < PAGE_ROWS && Density(InRange(book, w.from, w.to), most)
    requires |InRange(book, w.from, w.to)| <= Capacity(MAX_PAGES, most)
    ensures Complete(book, w) <==> forall t :: t >= w.from ==> !StallsAt(InRange(book, w.from, w.to), t)
  {
    SelectSorted(book, Within(w.from, w.to));
    NothingOlder(book, w.from, w.to);
    ReachesEndExactly(InRange(book, w.from, w.to), w.from, MAX_PAGES, most);
  }

  /** A window is complete when no millisecond holds `most` < 1000 deals or more and the window fits
      200 pages at that density. */
  lemma QuietWindowIsComplete(book: seq<Deal>, w: Window, most: nat)
    requires IsBook(book) && most < PAGE_ROWS
    requires forall t :: At(InRange(book, w.from, w.to), t) <= most
    requires |InRange(book, w.from, w.to)| <= Capacity(MAX_PAGES, most)
    ensures Complete(book, w)
  {
    var rows := InRange(book, w.from, w.to);
    forall t ensures !StallsAt(rows, t) {
      assert At(rows, t) <= most;
    }
    CompleteExactly(book, w, most);
  }

  /** A stalling millisecond makes its window incomplete, whatever else the book holds. */
  lemma StalledWindowIsIncomplete(book: seq<Deal>, w: Window, c: int)
    requires IsBook(book) && c >= w.from && StallsAt(InRange(book, w.from, w.to), c)
    ensures !Complete(book, w)
  {
    SelectSorted(book, Within(w.from, w.to));
    StallLosesRows(InRange(book, w.from, w.to), w.from, c, MAX_PAGES);
  }

  lemma {:induction false} FewerInRange(book: seq<Deal>, from: int, to: int, t: int)
    ensures At(InRange(book, from, to), t) <= At(book, t)
  {
    if book != [] {
      var init, d := book[..|book| - 1], book[|book| - 1];
      assert book == init + [d];
      FewerInRange(init, from, to, t);
      SelectSnoc(init, d, Within(from, to));
      SelectSnoc(init, d, AtTs(t));
      SelectSnoc(InRange(init, from, to), d, AtTs(t));
    }
  }

  /** The composition, in one call: a known account, quiet windows, any prior table, any refusals. Posting
      the same payloads again changes nothing. */
  method BackfillKnownAccount(table: TradeTable, book: seq<Deal>, now: int, registeredAt: int, login: int,
                              owner: Option<int>, rejects: Payload -> bool, ghost most: nat)
    returns (posted: nat, windows: seq<Window>, ghost payloads: seq<Payload>)
    requires IsBook(book) && registeredAt != 0 && registeredAt < now
    requires now - registeredAt <= MAX_WINDOWS * WINDOW_MS
    requires most < PAGE_ROWS
    requires forall t :: At(book, t) <= most
    requires forall from, to :: to - from <= WINDOW_MS ==> |InRange(book, from, to)| <= Capacity(MAX_PAGES, most)
    modifies table
    ensures Tiles(windows, registeredAt, now)
    ensures HoldsSpan(old(table.rows), table.rows, book, registeredAt, now, login, payloads, rejects)
    ensures HoldsOpeners(table.rows, book, windows, login, payloads, rejects)
    ensures OpenersKnown(payloads, book, windows, login) && Traced(payloads, book, windows, login)
    ensures table.rows == UpsertAll(old(table.rows), Accepted(payloads, rejects)) && posted == |payloads|
    ensures forall d :: d in book && d.closing && registeredAt <= d.ts <= now ==> HasRow(d, payloads, login)
    ensures UpsertAll(table.rows, Accepted(payloads, rejects)) == table.rows
  {
    BackfillTiles(now, Some(registeredAt), None);
    var walked;
    ghost var all;
    posted, windows, all, payloads, walked :=
      BackfillAccount(table, book, now, Some(registeredAt), None, login, owner, rejects);
    assert windows[..walked] == windows;
    forall j | 0 <= j < |windows| ensures Complete(book, windows[j]) {
      forall t ensures At(InRange(book, windows[j].from, windows[j].to), t) <= most {
        FewerInRange(book, windows[j].from, windows[j].to, t);
      }
      QuietWindowIsComplete(book, windows[j], most);
    }
    ExactlyOnce(old(table.rows), book, windows, registeredAt, now, all, payloads, login, rejects);
    ReplayIsNoOp(old(table.rows), Accepted(payloads, rejects));
  }

  // ---- killed and resumed --------------------------------------------------------------------

  lemma FromWindowsAppend(a: seq<Deal>, ws: seq<Window>, b: seq<Deal>, older: seq<Window>, book: seq<Deal>)
    requires FromWindows(a, book, ws) && FromWindows(b, book, older)
    ensures FromWindows(a + b, book, ws + older)
  {
    var all := ws + older;
    forall d ensures d in a + b <==> exists j :: 0 <= j < |all| && d in Reached(book, all[j]) {
      if j :| 0 <= j < |ws| && d in Reached(book, ws[j]) {
        assert all[j] == ws[j];
      }
      if j :| 0 <= j < |older| && d in Reached(book, older[j]) {
        assert all[|ws| + j] == older[j];
      }
    }
  }

  /** Rows already posted of windows still to come do no harm: each is posted again. */
  lemma PartIsCovered(a: seq<Payload>, s: seq<Deal>, part: seq<Payload>, b: seq<Payload>, u: seq<Deal>, login: int)
    requires OneRowEach(a, s, login) && OneRowEach(b, u, login)
    requires forall p :: p in part ==> HasSource(p, u, login)
    ensures OneRowEach((a + part) + b, s + u, login)
  {
    RowsAppend(a, s, b, u, login);
    forall p | p in (a + part) + b ensures HasSource(p, s + u, login) {
      if p in part {
        var d :| d in u && d.closing && ComesFrom(p, d, login);
        assert d in s + u;
      } else {
        assert p in a + b;
      }
    }
    forall d | d in s + u && d.closing ensures HasRow(d, (a + part) + b, login) {
      var p :| p in a + b && ComesFrom(p, d, login);
      assert p in (a + part) + b;
    }
  }

  lemma SourcesAreBelow(ps: seq<Payload>, deals: seq<Deal>, book: seq<Deal>, ws: seq<Window>, older: seq<Window>,
                        login: int)
    requires FromWindows(deals, book, older) && forall p :: p in ps ==> HasSource(p, deals, login)
    requires Descending(ws + older)
    ensures Below(ps, book, ws, login)
  {
    var all := ws + older;
    forall p | p in ps ensures HasOlderSource(p, book, ws, login) {
      var e :| e in deals && e.closing && ComesFrom(p, e, login);
      var j :| 0 <= j < |older| && e in Reached(book, older[j]);
      ReachedInside(book, older[j], e);
      forall i | 0 <= i < |ws| ensures e.ts <= ws[i].from {
        assert all[i] == ws[i] && all[|ws| + j] == older[j];
      }
      assert BeforeAll(e, ws);
    }
  }

  /** A run killed after checkpointing window `k`, with any `part` of the following windows already posted,
      and a later run resumed from the checkpoint together leave what one whole run would. */
  lemma ResumedExactlyOnce(before: Table, book: seq<Deal>, now: int, later: int, registeredAt: int, k: nat,
                           all1: seq<Deal>, payloads1: seq<Payload>, part: seq<Payload>,
                           all2: seq<Deal>, payloads2: seq<Payload>, login: int, rejects: Payload -> bool)
    requires IsBook(book) && registeredAt != 0 && now - MAX_WINDOWS * WINDOW_MS <= registeredAt && later > 0
    requires k < |Walk(now, registeredAt, MAX_WINDOWS)| && Walk(now, registeredAt, MAX_WINDOWS)[k].from != 0
    requires var windows := Walk(now, registeredAt, MAX_WINDOWS);
      && (forall j :: 0 <= j < |windows| ==> Complete(book, windows[j]))
      && FromWindows(all1, book, windows[..k + 1]) && OneRowEach(payloads1, all1, login)
      && OpenersKnown(payloads1, book, windows[..k + 1], login) && Traced(payloads1, book, windows[..k + 1], login)
    requires var cursorAt := Some(Walk(now, registeredAt, MAX_WINDOWS)[k].from);
      var resumed := Walk(Top(later, cursorAt), Floor(Top(later, cursorAt), Some(registeredAt)), MAX_WINDOWS);
      && FromWindows(all2, book, resumed) && OneRowEach(payloads2, all2, login)
      && OpenersKnown(payloads2, book, resumed, login) && Traced(payloads2, book, resumed, login)
      && Traced(part, book, resumed, login)
    ensures var payloads := (payloads1 + part) + payloads2;
      var after := UpsertAll(UpsertAll(UpsertAll(before, Accepted(payloads1, rejects)), Accepted(part, rejects)),
                             Accepted(payloads2, rejects));
      && after == UpsertAll(before, Accepted(payloads, rejects))
      && HoldsSpan(before, after, book, registeredAt, now, login, payloads, rejects)
      && HoldsOpeners(after, book, Walk(now, registeredAt, MAX_WINDOWS), login, payloads, rejects)
      && OpenersKnown(payloads, book, Walk(now, registeredAt, MAX_WINDOWS), login)
      && Traced(payloads, book, Walk(now, registeredAt, MAX_WINDOWS), login)
  {
    var windows := Walk(now, registeredAt, MAX_WINDOWS);
    ResumeIsRemainder(now, later, Some(registeredAt), k);
    BackfillTiles(now, Some(registeredAt), None);
    TwoRuns(before, book, windows, registeredAt, now, k + 1, all1, payloads1, part, all2, payloads2, login, rejects);
  }

  lemma JoinedTraces(a: seq<Payload>, ws: seq<Window>, part: seq<Payload>, b: seq<Payload>, older: seq<Window>,
                     book: seq<Deal>, login: int)
    requires Traced(a, book, ws, login) && Traced(part, book, older, login) && Traced(b, book, older, login)
    ensures Traced((a + part) + b, book, ws + older, login)
  {
    TracedAppend(a, ws, part, older, book, login);
    forall p | p in b ensures MadeInSome(p, book, ws + older, login) {
      MadeInEither(p, book, ws, older, login);
    }
  }

  lemma TwoRuns(before: Table, book: seq<Deal>, windows: seq<Window>, low: int, high: int, n: nat,
                all1: seq<Deal>, payloads1: seq<Payload>, part: seq<Payload>,
                all2: seq<Deal>, payloads2: seq<Payload>, login: int, rejects: Payload -> bool)
    requires IsBook(book) && n <= |windows| && windows != [] && Tiles(windows, low, high)
    requires forall j :: 0 <= j < |windows| ==> Complete(book, windows[j])
    requires FromWindows(all1, book, windows[..n]) && OneRowEach(payloads1, all1, login)
    requires OpenersKnown(payloads1, book, windows[..n], login) && Traced(payloads1, book, windows[..n], login)
    requires FromWindows(all2, book, windows[n..]) && OneRowEach(payloads2, all2, login)
    requires OpenersKnown(payloads2, book, windows[n..], login) && Traced(payloads2, book, windows[n..], login)
    requires Traced(part, book, windows[n..], login)
    ensures var payloads := (payloads1 + part) + payloads2;
      var after := UpsertAll(UpsertAll(UpsertAll(before, Accepted(payloads1, rejects)), Accepted(part, rejects)),
                             Accepted(payloads2, rejects));
      && after == UpsertAll(before, Accepted(payloads, rejects))
      && HoldsSpan(before, after, book, low, high, login, payloads, rejects)
      && HoldsOpeners(after, book, windows, login, payloads, rejects)
      && OpenersKnown(payloads, book, windows, login) && Traced(payloads, book, windows, login)
  {
    var ws, older := windows[..n], windows[n..];
    assert windows == ws + older;
    TilesDescend(windows, low, high);
    FromWindowsAppend(all1, ws, all2, older, book);
    TracedHasSource(part, all2, book, older, login);
    JoinedTraces(payloads1, ws, part, payloads2, older, book, login);
    PartIsCovered(payloads1, all1, part, payloads2, all2, login);
    SourcesAreBelow(part, all2, book, ws, older, login);
    OlderWindowsKeep(payloads1, part, book, ws, login);
    SourcesAreBelow(payloads2, all2, book, ws, older, login);
    OpenersAppend(payloads1 + part, ws, payloads2, older, book, login);
    AcceptedAppend(payloads1, part, rejects);
    AcceptedAppend(payloads1 + part, payloads2, rejects);
    UpsertAllAppend(before, Accepted(payloads1, rejects), Accepted(part, rejects));
    UpsertAllAppend(before, Accepted(payloads1 + part, rejects), Accepted(payloads2, rejects));
    ExactlyOnce(before, book, windows, low, high, all1 + all2, (payloads1 + part) + payloads2, login, rejects);
  }
}
