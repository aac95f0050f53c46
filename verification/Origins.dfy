/** The deals a window brings in, and the window and opening deal behind each row posted. */
module Origins {
  import opened Prelude
  import opened Windows
  import opened Paging
  import opened Ingest

  /** The deals one window's pages bring back. */
  function Reached(book: seq<Deal>, w: Window): seq<Deal> {
    var rows := InRange(book, w.from, w.to);
    rows[..Min(Reach(rows, w.from, MAX_PAGES), |rows|)]
  }

  ghost predicate FromWindows(all: seq<Deal>, book: seq<Deal>, windows: seq<Window>) {
    forall d :: d in all <==> exists j :: 0 <= j < |windows| && d in Reached(book, windows[j])
  }

  lemma RowsAppend(a: seq<Payload>, s: seq<Deal>, b: seq<Payload>, u: seq<Deal>, login: int)
    requires OneRowEach(a, s, login) && OneRowEach(b, u, login)
    ensures OneRowEach(a + b, s + u, login)
  {
    forall p | p in a + b ensures HasSource(p, s + u, login) {
      var d :| (d in s || d in u) && d.closing && ComesFrom(p, d, login);
      assert d in s + u;
    }
    forall d | d in s + u && d.closing ensures HasRow(d, a + b, login) {
      var p :| (p in a || p in b) && ComesFrom(p, d, login);
      assert p in a + b;
    }
  }

  lemma RowsOfSorted(deals: seq<Deal>, login: int, owner: Option<int>)
    ensures OneRowEach(TradesOf(StableSort(deals, ByTime()), login, owner), deals, login)
  {
    var ordered := StableSort(deals, ByTime());
    StableSortMembers(deals, ByTime());
    OneRowPerClosingDeal(ordered, login, owner);
    forall p | p in TradesOf(ordered, login, owner) ensures HasSource(p, deals, login) {
      assert HasSource(p, ordered, login);
    }
  }

  lemma FromWindowsSnoc(all: seq<Deal>, deals: seq<Deal>, book: seq<Deal>, windows: seq<Window>, w: Window)
    requires FromWindows(all, book, windows) && SameDeals(deals, Reached(book, w))
    ensures FromWindows(all + deals, book, windows + [w])
  {
    var more := windows + [w];
    forall d ensures d in all + deals <==> exists j :: 0 <= j < |more| && d in Reached(book, more[j]) {
      if d in all {
        var j :| 0 <= j < |windows| && d in Reached(book, windows[j]);
        assert more[j] == windows[j];
      }
      if d in deals {
        assert more[|windows|] == w;
      }
      if j :| 0 <= j < |more| && d in Reached(book, more[j]) {
        assert j < |windows| ==> more[j] == windows[j];
      }
    }
  }

  ghost predicate Complete(book: seq<Deal>, w: Window) {
    Reach(InRange(book, w.from, w.to), w.from, MAX_PAGES) == |InRange(book, w.from, w.to)|
  }

  lemma ReachedInside(book: seq<Deal>, w: Window, d: Deal)
    ensures d in Reached(book, w) ==> d in book && w.from <= d.ts <= w.to
    ensures Complete(book, w) && d in book && w.from <= d.ts <= w.to ==> d in Reached(book, w)
  {
    SelectMembers(book, Within(w.from, w.to));
    var rows := InRange(book, w.from, w.to);
    assert rows[..|rows|] == rows;
  }

  lemma IdsAreUnique(book: seq<Deal>, d: Deal, e: Deal)
    requires IsBook(book) && d in book && e in book && d.dealId == e.dealId
    ensures d == e
  {
    var i :| 0 <= i < |book| && book[i] == d;
    var j :| 0 <= j < |book| && book[j] == e;
    assert i == j;
  }

  lemma {:induction false} LastWriter(ps: seq<Payload>, k: (int, int)) returns (p: Payload)
    requires Last(ps, k, MechCol()).Some?
    ensures p in ps && KeyOf(p) == k && p.mech == Last(ps, k, MechCol()).value
  {
    p := ps[|ps| - 1];
    if KeyOf(p) != k {
      p := LastWriter(ps[..|ps| - 1], k);
    }
  }

  // ---- which opening deal a row takes its side and time from -------------------------------

  predicate InWindow(book: seq<Deal>, w: Window, d: Deal) {
    d in book && w.from <= d.ts <= w.to
  }

  /** `o` opens what `d` closes: both in the window, and no other opening deal of the position there is as old. */
  ghost predicate Opens(book: seq<Deal>, w: Window, o: Deal, d: Deal) {
    && InWindow(book, w, o) && InWindow(book, w, d)
    && d.closing && !o.closing && o.positionId == d.positionId && o.ts < d.ts
    && forall x :: InWindow(book, w, x) && !x.closing && x.positionId == d.positionId && x != o ==> o.ts < x.ts
  }

  /** Side and open time from the opening deal, the rest from the closing one. */
  predicate IsClosed(m: Mech, o: Deal, d: Deal) {
    m.sell == o.sell && m.openTime == o.ts && m.closeTime == d.ts && m.figures == d.figures
  }

  /** Without an opening deal: a buy, opened when it closed. */
  predicate IsAlone(m: Mech, d: Deal) {
    !m.sell && m.openTime == d.ts && m.closeTime == d.ts && m.figures == d.figures
  }

  predicate IsRowOf(m: Mech, opener: Option<Deal>, d: Deal) {
    if opener.Some? then IsClosed(m, opener.value, d) else IsAlone(m, d)
  }

  predicate Decided(m: Option<Mech>, o: Deal, d: Deal) {
    m.Some? && IsClosed(m.value, o, d)
  }

  /** The last payload for a deal read with its opening deal carries that deal's side and time. */
  ghost predicate OpenersKnown(payloads: seq<Payload>, book: seq<Deal>, windows: seq<Window>, login: int) {
    forall j, o, d :: (0 <= j < |windows| && d in Reached(book, windows[j]) && Opens(book, windows[j], o, d)) ==>
      Decided(Last(payloads, (login, d.dealId), MechCol()), o, d)
  }

  /** Every window ends where the ones before it begin, or earlier. */
  predicate Descending(windows: seq<Window>) {
    forall i, j :: 0 <= i < j < |windows| ==> windows[j].to <= windows[i].from
  }

  lemma {:induction false} TilesDescend(windows: seq<Window>, low: int, high: int)
    requires Tiles(windows, low, high)
    ensures Descending(windows)
  {
    forall i, j | 0 <= i < j < |windows| ensures windows[j].to <= windows[i].from {
      EarlierBegins(windows, low, high, i, j);
    }
  }

  lemma {:induction false} EarlierBegins(windows: seq<Window>, low: int, high: int, i: nat, j: nat)
    requires Tiles(windows, low, high) && i < j < |windows|
    ensures windows[j].to <= windows[i].from
    decreases j
  {
    if j > i + 1 {
      EarlierBegins(windows, low, high, i, j - 1);
    }
  }

  /** Reading in time order brings an older deal of the window in with any newer one. */
  lemma OlderIsReached(book: seq<Deal>, w: Window, o: Deal, d: Deal)
    requires IsBook(book) && d in Reached(book, w) && InWindow(book, w, o) && o.ts < d.ts
    ensures o in Reached(book, w)
  {
    var rows := InRange(book, w.from, w.to);
    SelectMembers(book, Within(w.from, w.to));
    SelectSorted(book, Within(w.from, w.to));
    OlderInPrefix(rows, |Reached(book, w)|, o, d);
  }

  lemma OlderInPrefix(rows: seq<Deal>, n: nat, o: Deal, d: Deal)
    requires Sorted(rows) && n <= |rows| && o in rows && d in rows[..n] && o.ts < d.ts
    ensures o in rows[..n]
  {
    var i :| 0 <= i < |rows| && rows[i] == o;
    var k :| 0 <= k < n && rows[k] == d;
    assert rows[..n][i] == o;
  }

  /** Within one window every row of `d` takes its side and time from `o`. */
  lemma {:induction false} RowsOfOpener(ordered: seq<Deal>, n: nat, o: Deal, d: Deal, login: int, owner: Option<int>)
    requires Sorted(ordered) && n <= |ordered| && o in ordered
    requires d.closing && !o.closing && o.positionId == d.positionId && o.ts < d.ts
    requires forall x :: x in ordered && x.dealId == d.dealId ==> x == d
    requires forall x :: x in ordered && !x.closing && x.positionId == d.positionId && x != o ==> o.ts < x.ts
    ensures forall p :: p in TradesOf(ordered[..n], login, owner) && KeyOf(p) == (login, d.dealId) ==>
      p.mech == MechOf(d, Some(o))
  {
    if n > 0 {
      var init, e := ordered[..n - 1], ordered[n - 1];
      assert ordered[..n][..n - 1] == init && e in ordered;
      RowsOfOpener(ordered, n - 1, o, d, login, owner);
      if e.closing && e.dealId == d.dealId {
        OpenerFound(ordered, n - 1, o, d);
      }
    }
  }

  lemma OpenerFound(ordered: seq<Deal>, n: nat, o: Deal, d: Deal)
    requires Sorted(ordered) && n < |ordered| && ordered[n] == d && o in ordered
    requires !o.closing && o.positionId == d.positionId && o.ts < d.ts
    requires forall x :: x in ordered && !x.closing && x.positionId == d.positionId && x != o ==> o.ts < x.ts
    ensures OpenerIn(ordered[..n], d.positionId) == Some(o)
  {
    var i :| 0 <= i < |ordered| && ordered[i] == o;
    assert i < n && ordered[..n][i] == o;
    OpenerIsEarliest(ordered[..n], d.positionId);
    var x := OpenerIn(ordered[..n], d.positionId).value;
    assert x in ordered;
  }

  lemma {:induction false} LastAppend<T>(a: seq<Payload>, b: seq<Payload>, k: (int, int), col: Payload -> Option<T>)
    ensures Last(a + b, k, col) == if Last(b, k, col).Some? then Last(b, k, col) else Last(a, k, col)
  {
    if b == [] {
      assert a + b == a;
    } else {
      var init := b[..|b| - 1];
      assert (a + b)[..|a + b| - 1] == a + init;
      LastAppend(a, init, k, col);
    }
  }

  lemma LastIs(ps: seq<Payload>, k: (int, int), m: Mech)
    requires forall p :: p in ps && KeyOf(p) == k ==> p.mech == m
    requires exists p :: p in ps && KeyOf(p) == k
    ensures Last(ps, k, MechCol()) == Some(m)
  {
    UpsertColumns(map[], ps, k);
    var p := LastWriter(ps, k);
  }

  lemma WindowKnows(deals: seq<Deal>, book: seq<Deal>, w: Window, login: int, owner: Option<int>)
    requires IsBook(book) && SameDeals(deals, Reached(book, w))
    ensures OpenersKnown(TradesOf(StableSort(deals, ByTime()), login, owner), book, [w], login)
  {
    var ordered := StableSort(deals, ByTime());
    var trades := TradesOf(ordered, login, owner);
    StableSortMembers(deals, ByTime());
    TimeSorted(deals);
    forall o, d | d in Reached(book, w) && Opens(book, w, o, d)
      ensures Decided(Last(trades, (login, d.dealId), MechCol()), o, d)
    {
      OlderIsReached(book, w, o, d);
      forall x | x in ordered ensures InWindow(book, w, x) && (x.dealId == d.dealId ==> x == d) {
        ReachedInside(book, w, x);
        if x.dealId == d.dealId {
          IdsAreUnique(book, x, d);
        }
      }
      RowsOfOpener(ordered, |ordered|, o, d, login, owner);
      assert ordered[..|ordered|] == ordered;
      HasOwnRow(ordered, d, login, owner);
      LastIs(trades, (login, d.dealId), MechOf(d, Some(o)));
    }
  }

  lemma HasOwnRow(ordered: seq<Deal>, d: Deal, login: int, owner: Option<int>)
    requires d in ordered && d.closing
    ensures exists p :: p in TradesOf(ordered, login, owner) && KeyOf(p) == (login, d.dealId)
  {
    OneRowPerClosingDeal(ordered, login, owner);
    assert HasRow(d, TradesOf(ordered, login, owner), login);
    var p :| p in TradesOf(ordered, login, owner) && ComesFrom(p, d, login);
    assert KeyOf(p) == (login, d.dealId);
  }

  lemma TimeSorted(deals: seq<Deal>)
    ensures Sorted(StableSort(deals, ByTime()))
  {
    StableSortSorted(deals, ByTime());
    var s := StableSort(deals, ByTime());
    forall i, j | 0 <= i < j < |s| ensures s[i].ts <= s[j].ts {
      assert ByTime()(s[i]) <= ByTime()(s[j]);
    }
  }

  /** Payloads of deals no newer than any of these windows begins. */
  ghost predicate Below(ps: seq<Payload>, book: seq<Deal>, windows: seq<Window>, login: int) {
    forall p :: p in ps ==> HasOlderSource(p, book, windows, login)
  }

  ghost predicate HasOlderSource(p: Payload, book: seq<Deal>, windows: seq<Window>, login: int) {
    exists e :: e in book && ComesFrom(p, e, login) && BeforeAll(e, windows)
  }

  predicate BeforeAll(e: Deal, windows: seq<Window>) {
    forall i :: 0 <= i < |windows| ==> e.ts <= windows[i].from
  }

  /** Walking on to older windows does not touch the rows decided so far. */
  lemma OlderWindowsKeep(ps: seq<Payload>, more: seq<Payload>, book: seq<Deal>, windows: seq<Window>, login: int)
    requires IsBook(book) && OpenersKnown(ps, book, windows, login) && Below(more, book, windows, login)
    ensures OpenersKnown(ps + more, book, windows, login)
  {
    forall j, o, d | 0 <= j < |windows| && d in Reached(book, windows[j]) && Opens(book, windows[j], o, d)
      ensures Decided(Last(ps + more, (login, d.dealId), MechCol()), o, d)
    {
      forall p | p in more ensures KeyOf(p) != (login, d.dealId) {
        assert HasOlderSource(p, book, windows, login);
        var e :| e in book && ComesFrom(p, e, login) && BeforeAll(e, windows);
        if e.dealId == d.dealId {
          IdsAreUnique(book, d, e);
        }
      }
      UpsertColumns(map[], more, (login, d.dealId));
      LastAppend(ps, more, (login, d.dealId), MechCol());
    }
  }

  lemma LaterDecides(ps: seq<Payload>, more: seq<Payload>, k: (int, int), o: Deal, d: Deal)
    requires Decided(Last(more, k, MechCol()), o, d)
    ensures Decided(Last(ps + more, k, MechCol()), o, d)
  {
    LastAppend(ps, more, k, MechCol());
  }

  lemma OpenersAppend(ps: seq<Payload>, ws: seq<Window>, more: seq<Payload>, older: seq<Window>,
                      book: seq<Deal>, login: int)
    requires IsBook(book) && OpenersKnown(ps, book, ws, login) && OpenersKnown(more, book, older, login)
    requires Below(more, book, ws, login)
    ensures OpenersKnown(ps + more, book, ws + older, login)
  {
    OlderWindowsKeep(ps, more, book, ws, login);
    var all := ws + older;
    forall j, o, d | 0 <= j < |all| && d in Reached(book, all[j]) && Opens(book, all[j], o, d)
      ensures Decided(Last(ps + more, (login, d.dealId), MechCol()), o, d)
    {
      if j < |ws| {
        assert all[j] == ws[j];
      } else {
        assert all[j] == older[j - |ws|];
        LaterDecides(ps, more, (login, d.dealId), o, d);
      }
    }
  }

  lemma WindowIsBelow(trades: seq<Payload>, deals: seq<Deal>, book: seq<Deal>, windows: seq<Window>, walked: nat,
                      login: int)
    requires Descending(windows) && walked < |windows| && SameDeals(deals, Reached(book, windows[walked]))
    requires OneRowEach(trades, deals, login)
    ensures Below(trades, book, windows[..walked], login)
  {
    forall p | p in trades ensures HasOlderSource(p, book, windows[..walked], login) {
      assert HasSource(p, deals, login);
      var e :| e in deals && e.closing && ComesFrom(p, e, login);
      ReachedInside(book, windows[walked], e);
      assert BeforeAll(e, windows[..walked]);
    }
  }

  // ---- where each row posted comes from ------------------------------------------------------

  /** An opening deal the window's pages brought in for `d`, if any was used. */
  predicate OpenedBy(opener: Option<Deal>, d: Deal, deals: seq<Deal>) {
    opener.Some? ==>
      opener.value in deals && !opener.value.closing
      && opener.value.positionId == d.positionId && opener.value.ts <= d.ts
  }

  /** The row is a closing deal of the window's, with an opening deal of the same window or none. */
  ghost predicate MadeIn(p: Payload, deals: seq<Deal>, login: int) {
    exists d, opener :: d in deals && d.closing && OpenedBy(opener, d, deals)
      && KeyOf(p) == (login, d.dealId) && IsRowOf(p.mech, opener, d)
  }

  ghost predicate Traced(payloads: seq<Payload>, book: seq<Deal>, windows: seq<Window>, login: int) {
    forall p :: p in payloads ==> MadeInSome(p, book, windows, login)
  }

  ghost predicate MadeInSome(p: Payload, book: seq<Deal>, windows: seq<Window>, login: int) {
    exists j :: 0 <= j < |windows| && MadeIn(p, Reached(book, windows[j]), login)
  }

  lemma TracedAppend(ps: seq<Payload>, ws: seq<Window>, more: seq<Payload>, older: seq<Window>,
                     book: seq<Deal>, login: int)
    requires Traced(ps, book, ws, login) && Traced(more, book, older, login)
    ensures Traced(ps + more, book, ws + older, login)
  {
    forall p | p in ps + more ensures MadeInSome(p, book, ws + older, login) {
      MadeInEither(p, book, ws, older, login);
    }
  }

  lemma MadeInEither(p: Payload, book: seq<Deal>, ws: seq<Window>, older: seq<Window>, login: int)
    requires MadeInSome(p, book, ws, login) || MadeInSome(p, book, older, login)
    ensures MadeInSome(p, book, ws + older, login)
  {
    var all := ws + older;
    if MadeInSome(p, book, ws, login) {
      var j :| 0 <= j < |ws| && MadeIn(p, Reached(book, ws[j]), login);
      assert all[j] == ws[j];
    } else {
      var j :| 0 <= j < |older| && MadeIn(p, Reached(book, older[j]), login);
      assert all[|ws| + j] == older[j];
    }
  }

  lemma TracedHasSource(ps: seq<Payload>, deals: seq<Deal>, book: seq<Deal>, windows: seq<Window>, login: int)
    requires Traced(ps, book, windows, login) && FromWindows(deals, book, windows)
    ensures forall p :: p in ps ==> HasSource(p, deals, login)
  {
    forall p | p in ps ensures HasSource(p, deals, login) {
      assert MadeInSome(p, book, windows, login);
      var j :| 0 <= j < |windows| && MadeIn(p, Reached(book, windows[j]), login);
      var d, opener :| d in Reached(book, windows[j]) && d.closing && OpenedBy(opener, d, Reached(book, windows[j]))
        && KeyOf(p) == (login, d.dealId) && IsRowOf(p.mech, opener, d);
      assert d in deals && ComesFrom(p, d, login);
    }
  }

  lemma {:induction false} OpenerIsMember(s: seq<Deal>, pos: int)
    ensures OpenerIn(s, pos).Some? ==>
      var o := OpenerIn(s, pos).value; o in s && !o.closing && o.positionId == pos
  {
    if s != [] {
      OpenerIsMember(s[..|s| - 1], pos);
    }
  }

  lemma {:induction false} RowsAreMade(ordered: seq<Deal>, n: nat, login: int, owner: Option<int>)
    requires Sorted(ordered) && n <= |ordered|
    ensures forall p :: p in TradesOf(ordered[..n], login, owner) ==> MadeIn(p, ordered, login)
  {
    if n > 0 {
      var init, d := ordered[..n - 1], ordered[n - 1];
      assert ordered[..n][..n - 1] == init && d in ordered;
      RowsAreMade(ordered, n - 1, login, owner);
      if d.closing {
        var opener := OpenerIn(init, d.positionId);
        OpenerIsMember(init, d.positionId);
        assert OpenedBy(opener, d, ordered);
        assert MadeIn(DealToTrade(d, opener, login, owner), ordered, login);
      }
    }
  }

  lemma WindowTraces(deals: seq<Deal>, book: seq<Deal>, w: Window, login: int, owner: Option<int>)
    requires SameDeals(deals, Reached(book, w))
    ensures Traced(TradesOf(StableSort(deals, ByTime()), login, owner), book, [w], login)
  {
    var ordered := StableSort(deals, ByTime());
    TimeSorted(deals);
    StableSortMembers(deals, ByTime());
    RowsAreMade(ordered, |ordered|, login, owner);
    assert ordered[..|ordered|] == ordered;
    forall p | p in TradesOf(ordered, login, owner) ensures MadeInSome(p, book, [w], login) {
      MadeInSame(p, ordered, Reached(book, w), login);
      assert [w][0] == w;
    }
  }

  lemma MadeInSame(p: Payload, a: seq<Deal>, b: seq<Deal>, login: int)
    requires MadeIn(p, a, login) && SameDeals(a, b)
    ensures MadeIn(p, b, login)
  {
    var d, opener :| d in a && d.closing && OpenedBy(opener, d, a)
      && KeyOf(p) == (login, d.dealId) && IsRowOf(p.mech, opener, d);
    assert OpenedBy(opener, d, b);
  }
}
