/** Concrete histories on which a backfill loses deals or files a trade on the wrong side. */
module BackfillCases {
  import opened Prelude
  import opened Windows
  import opened Paging
  import opened Ingest
  import opened Origins
  import opened Backfill

  // ---- a millisecond that fills a page -----------------------------------------------------

  /** `n` opening deals of one millisecond. */
  function Burst(n: nat): seq<Deal> {
    seq(n, i => Deal(i, 5, 0, false, false, 0))
  }

  const Minute: Window := Window(0, 60_000)

  lemma BurstInRange(n: nat)
    ensures IsBook(Burst(n)) && InRange(Burst(n), Minute.from, Minute.to) == Burst(n)
  {
    SelectAll(Burst(n), Within(Minute.from, Minute.to));
  }

  lemma BurstAtOnce(n: nat)
    ensures At(Burst(n), 5) == n && Older(Burst(n), 5) == 0
  {
    SelectAll(Burst(n), AtTs(5));
  }

  /** One deal more than a page at one millisecond: the window is well within its capacity, and its last deal
      is never read. */
  lemma StallHappens()
    ensures var book := Burst(PAGE_ROWS + 1); var rows := InRange(book, Minute.from, Minute.to);
      && IsBook(book) && Density(rows, PAGE_ROWS - 1) && |rows| <= Capacity(MAX_PAGES, PAGE_ROWS - 1)
      && StallsAt(rows, 5) && !Complete(book, Minute)
      && InWindow(book, Minute, book[PAGE_ROWS]) && book[PAGE_ROWS] !in Reached(book, Minute)
  {
    var book := Burst(PAGE_ROWS + 1);
    BurstInRange(PAGE_ROWS + 1);
    BurstAtOnce(PAGE_ROWS + 1);
    EveryWindowHasADensity(book);
    StallLosesRows(book, Minute.from, 5, MAX_PAGES);
    assert book[PAGE_ROWS] in book;
    forall i | 0 <= i < |Reached(book, Minute)| ensures Reached(book, Minute)[i] != book[PAGE_ROWS] {
    }
  }

  // ---- a position held across a window edge --------------------------------------------------

  /** A short opened just before the edge and closed just after it. */
  const Sold: Deal := Deal(1, WINDOW_MS - 1, 7, false, true, 0)
  const BoughtBack: Deal := Deal(2, WINDOW_MS + 1, 7, true, false, 250)

  const Short: seq<Deal> := [Sold, BoughtBack]
  const BothSides: seq<Window> := [Window(WINDOW_MS, 2 * WINDOW_MS), Window(0, WINDOW_MS)]

  /** The newer window's rows: the short is a buy, opened the moment it closed. */
  lemma ReadAlone(login: int, owner: Option<int>)
    ensures TradesOf([BoughtBack], login, owner)
      == [Payload(2, login, Mech(false, WINDOW_MS + 1, WINDOW_MS + 1, 250), None, None, owner)]
  {
    assert [BoughtBack][..0] == [];
    assert [] + [DealToTrade(BoughtBack, None, login, owner)] == [DealToTrade(BoughtBack, None, login, owner)];
  }

  /** Whatever the backfill posts from those two windows, the row it stores for the short is a long. */
  lemma ShortFiledAsLong(before: Table, payloads: seq<Payload>, login: int, rejects: Payload -> bool)
    requires Traced(payloads, Short, BothSides, login)
    requires Stored(Accepted(payloads, rejects), (login, BoughtBack.dealId))
    ensures IsBook(Short) && Tiles(BothSides, 0, 2 * WINDOW_MS) && OpenedIt(Short, Sold, BoughtBack) && Sold.sell
    ensures var after := UpsertAll(before, Accepted(payloads, rejects));
      (login, 2) in after && after[(login, 2)].mech == Mech(false, WINDOW_MS + 1, WINDOW_MS + 1, 250)
  {
    assert Short[0] == Sold && Short[1] == BoughtBack;
    assert BothSides[0] == Window(WINDOW_MS, 2 * WINDOW_MS) && BothSides[1] == Window(0, WINDOW_MS);
    UnopenedIsFiledAsBuy(before, Short, BothSides, payloads, login, rejects, BoughtBack);
  }
}
