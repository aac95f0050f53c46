/** fetchWindow: paging a deal list by re-asking from the last timestamp seen. */
module Paging {
  import opened Prelude

  const PAGE_ROWS: nat := 1000
  const MAX_PAGES: nat := 200

  /** What the worker reads off a deal. `figures` stands for the prices and money it copies through. */
  datatype Deal = Deal(dealId: int, ts: int, positionId: int, closing: bool, sell: bool, figures: int)

  /** The broker's book: oldest first, ties in one fixed order, ids unique. */
  predicate IsBook(deals: seq<Deal>) {
    forall i, j :: 0 <= i < j < |deals| ==> deals[i].ts <= deals[j].ts && deals[i].dealId != deals[j].dealId
  }

  function Within(from: int, to: int): Deal -> bool {
    (d: Deal) => from <= d.ts <= to
  }

  function InRange(deals: seq<Deal>, from: int, to: int): seq<Deal> {
    Select(deals, Within(from, to))
  }

  datatype Page = Page(deal: seq<Deal>, hasMore: bool)

  /** ProtoOADealListReq as the broker answers it: the oldest rows of [from, to], and whether any were left out. */
  function DealList(deals: seq<Deal>, from: int, to: int, maxRows: nat): Page {
    var rows := InRange(deals, from, to);
    Page(rows[..Min(maxRows, |rows|)], |rows| > maxRows)
  }

  method LatestTs(batch: seq<Deal>) returns (last: int)
    requires batch != [] && forall i, j :: 0 <= i < j < |batch| ==> batch[i].ts <= batch[j].ts
    ensures last == batch[|batch| - 1].ts
  {
    last := batch[0].ts;
    for i := 1 to |batch|
      invariant last == batch[i - 1].ts
    {
      last := Max(last, batch[i].ts);
    }
  }

  /** How many of the window's deals are older than `c`. */
  function Older(w: seq<Deal>, c: int): nat {
    if w == [] || w[0].ts >= c then 0 else 1 + Older(w[1..], c)
  }

  /** How far into the window list `w` the pages from cursor `c` get. */
  function Reach(w: seq<Deal>, c: int, pages: nat): nat
    decreases pages
  {
    var end := Min(Older(w, c) + PAGE_ROWS, |w|);
    if pages == 0 then 0
    else if end == |w| || pages == 1 || end == 0 || w[end - 1].ts <= c then end
    else Reach(w, w[end - 1].ts, pages - 1)
  }

  // ---- a cursor request is a suffix of the window ------------------------------------------

  predicate Sorted(w: seq<Deal>) {
    forall i, j :: 0 <= i < j < |w| ==> w[i].ts <= w[j].ts
  }

  lemma {:induction false} OlderSplits(w: seq<Deal>, c: int)
    requires Sorted(w)
    ensures Older(w, c) <= |w|
    ensures forall i :: 0 <= i < |w| ==> (w[i].ts < c <==> i < Older(w, c))
  {
    if w != [] && w[0].ts < c {
      OlderSplits(w[1..], c);
      assert forall i :: 0 < i < |w| ==> w[i] == w[1..][i - 1];
    }
  }

  lemma {:induction false} SelectSorted(deals: seq<Deal>, p: Deal -> bool)
    requires Sorted(deals)
    ensures Sorted(Select(deals, p))
  {
    if deals != [] {
      var init, d := deals[..|deals| - 1], deals[|deals| - 1];
      assert deals == init + [d];
      SelectSorted(init, p);
      SelectSnoc(init, d, p);
      SelectMembers(init, p);
      var s := Select(init, p);
      forall i | 0 <= i < |s| ensures s[i].ts <= d.ts {
        assert s[i] in init;
      }
    }
  }

  lemma {:induction false} SelectTwice(deals: seq<Deal>, from: int, c: int, to: int)
    requires from <= c
    ensures InRange(deals, c, to) == Select(InRange(deals, from, to), Within(c, to))
  {
    if deals != [] {
      var init, d := deals[..|deals| - 1], deals[|deals| - 1];
      assert deals == init + [d];
      SelectTwice(init, from, c, to);
      SelectSnoc(init, d, Within(c, to));
      SelectSnoc(init, d, Within(from, to));
      SelectSnoc(InRange(init, from, to), d, Within(c, to));
    }
  }

  lemma OlderMonotone(w: seq<Deal>, c: int, e: int)
    requires Sorted(w) && c <= e
    ensures Older(w, c) <= Older(w, e) <= |w|
  {
    OlderSplits(w, c);
    OlderSplits(w, e);
  }

  /** Of a sorted list inside `to`, a cursor keeps what is not older. */
  lemma WithinIsSuffix(w: seq<Deal>, c: int, to: int)
    requires Sorted(w) && forall d :: d in w ==> d.ts <= to
    ensures Older(w, c) <= |w| && Select(w, Within(c, to)) == w[Older(w, c)..]
  {
    OlderSplits(w, c);
    SelectFrom(w, Older(w, c), Within(c, to));
  }

  lemma SelectFrom(w: seq<Deal>, k: nat, p: Deal -> bool)
    requires k <= |w| && (forall i :: 0 <= i < k ==> !p(w[i])) && (forall i :: k <= i < |w| ==> p(w[i]))
    ensures Select(w, p) == w[k..]
  {
    assert w == w[..k] + w[k..];
    SelectAppend(w[..k], w[k..], p);
    SelectNone(w[..k], p);
    SelectAll(w[k..], p);
    assert [] + w[k..] == w[k..];
  }

  lemma RequestIsSuffix(deals: seq<Deal>, from: int, c: int, to: int)
    requires Sorted(deals) && from <= c
    ensures var w := InRange(deals, from, to);
      Sorted(w) && Older(w, c) <= |w| && InRange(deals, c, to) == w[Older(w, c)..]
  {
    SelectSorted(deals, Within(from, to));
    SelectMembers(deals, Within(from, to));
    SelectTwice(deals, from, c, to);
    WithinIsSuffix(InRange(deals, from, to), c, to);
  }

  lemma NothingOlder(deals: seq<Deal>, from: int, to: int)
    ensures Older(InRange(deals, from, to), from) == 0
  {
    SelectMembers(deals, Within(from, to));
    var w := InRange(deals, from, to);
    assert w != [] ==> w[0] in w;
  }

  /** The page a request from cursor `c` gets back, as a slice of the window. */
  lemma PageIsSlice(book: seq<Deal>, from: int, c: int, to: int)
    requires IsBook(book) && from <= c
    ensures var w := InRange(book, from, to); var res := DealList(book, c, to, PAGE_ROWS);
      var end := Min(Older(w, c) + PAGE_ROWS, |w|);
      Sorted(w) && Older(w, c) <= |w| && res.deal == w[Older(w, c)..end] && (res.hasMore <==> end < |w|)
  {
    RequestIsSuffix(book, from, c, to);
  }

  ghost predicate SameDeals(a: seq<Deal>, b: seq<Deal>) {
    forall d :: d in a <==> d in b
  }

  /** One request from the loop: the page, and its latest timestamp when there is one. */
  method Ask(book: seq<Deal>, ghost from: int, cursor: int, to: int)
    returns (batch: seq<Deal>, hasMore: bool, last: int)
    requires IsBook(book) && from <= cursor
    ensures var w := InRange(book, from, to); var start := Older(w, cursor);
      && var end := Min(start + PAGE_ROWS, |w|);
      && start <= end
      && batch == w[start..end]
      && (hasMore <==> end < |w|)
      && (batch != [] ==> last == w[end - 1].ts)
      && (batch != [] && last > cursor ==> Older(w, last) <= end <= Older(w, last) + PAGE_ROWS)
  {
    PageIsSlice(book, from, cursor, to);
    var res := DealList(book, cursor, to, PAGE_ROWS);
    batch, hasMore, last := res.deal, res.hasMore, cursor;
    if batch != [] {
      last := LatestTs(batch);
      ghost var w := InRange(book, from, to);
      if last > cursor {
        NextStart(w, cursor, Min(Older(w, cursor) + PAGE_ROWS, |w|), last);
      }
    }
  }

  /** After `page` requests: the deals up to `got` are in hand and the next request is at `cursor`. */
  ghost predicate Paged(w: seq<Deal>, from: int, cursor: int, page: int, got: int, deals: seq<Deal>) {
    && 0 <= page <= MAX_PAGES && from <= cursor
    && 0 <= got && Older(w, cursor) <= got <= |w| && got <= Older(w, cursor) + PAGE_ROWS
    && SameDeals(deals, w[..got])
    && Reach(w, from, MAX_PAGES) == if page == MAX_PAGES then got else Reach(w, cursor, MAX_PAGES - page)
  }

  ghost predicate Fetched(w: seq<Deal>, from: int, deals: seq<Deal>) {
    Reach(w, from, MAX_PAGES) <= |w| && SameDeals(deals, w[..Reach(w, from, MAX_PAGES)])
  }

  lemma PagedStart(book: seq<Deal>, from: int, to: int)
    ensures Paged(InRange(book, from, to), from, from, 0, 0, [])
  {
    NothingOlder(book, from, to);
    assert InRange(book, from, to)[..0] == [];
  }

  lemma PagedStep(w: seq<Deal>, from: int, cursor: int, page: int, got: int, deals: seq<Deal>, end: nat, last: int)
    requires Paged(w, from, cursor, page, got, deals) && page < MAX_PAGES
    requires end == Min(Older(w, cursor) + PAGE_ROWS, |w|) && Older(w, cursor) <= end
    requires end > Older(w, cursor) ==> last == w[end - 1].ts
    ensures var batch := w[Older(w, cursor)..end];
      if end == |w| || batch == [] || last <= cursor then Fetched(w, from, deals + batch)
      else (Older(w, last) <= end <= Older(w, last) + PAGE_ROWS
            ==> Paged(w, from, last, page + 1, end, deals + batch))
  {
    SlicesJoin(deals, w, Older(w, cursor), got, end);
  }

  lemma PagedOut(w: seq<Deal>, from: int, cursor: int, got: int, deals: seq<Deal>)
    requires Paged(w, from, cursor, MAX_PAGES, got, deals)
    ensures Fetched(w, from, deals)
  {
  }

  /** One window's deals. Every deal up to the reach comes back, and nothing else does; the overlap a
      re-asked boundary brings is left in. */
  method FetchWindow(book: seq<Deal>, from: int, to: int) returns (deals: seq<Deal>)
    requires IsBook(book)
    ensures Fetched(InRange(book, from, to), from, deals)
  {
    ghost var w := InRange(book, from, to);
    deals := [];
    var cursor := from;
    var page := 0;
    ghost var got := 0;
    PagedStart(book, from, to);
    while page < MAX_PAGES
      invariant Paged(w, from, cursor, page, got, deals)
      decreases MAX_PAGES - page
    {
      var batch, hasMore, last := Ask(book, from, cursor, to);
      ghost var end := Min(Older(w, cursor) + PAGE_ROWS, |w|);
      PagedStep(w, from, cursor, page, got, deals, end, last);
      deals := deals + batch;
      if !hasMore || batch == [] {
        return;
      }
      if last <= cursor {
        return;
      }
      got := end;
      page, cursor := page + 1, last;
    }
    PagedOut(w, from, cursor, got, deals);
  }

  lemma NextStart(w: seq<Deal>, c: int, end: nat, last: int)
    requires Sorted(w) && Older(w, c) < end <= |w| && end <= Older(w, c) + PAGE_ROWS
    requires last == w[end - 1].ts && last > c
    ensures Older(w, last) <= end <= Older(w, last) + PAGE_ROWS
  {
    OlderSplits(w, last);
    OlderMonotone(w, c, last);
  }

  /** Overlapping slices cover the span from the first start to the last end. */
  lemma SlicesJoin(deals: seq<Deal>, w: seq<Deal>, start: nat, got: nat, end: nat)
    requires start <= got <= end <= |w| && SameDeals(deals, w[..got])
    ensures SameDeals(deals + w[start..end], w[..end])
  {
    assert w[..end] == w[..got] + w[got..end];
    assert w[..end] == w[..start] + w[start..end];
    assert w[..got] == w[..start] + w[start..got];
  }

  // ---- when the pages reach the end ------------------------------------------------------

  function AtTs(c: int): Deal -> bool {
    (d: Deal) => d.ts == c
  }

  /** Deals of the window at one timestamp. */
  function At(w: seq<Deal>, c: int): nat {
    |Select(w, AtTs(c))|
  }

  /** A millisecond that fills a page by itself with more still to come. */
  predicate StallsAt(w: seq<Deal>, c: int) {
    At(w, c) >= PAGE_ROWS && |w| - Older(w, c) > PAGE_ROWS
  }

  /** The deals at `c` sit together, right after the older ones. */
  lemma AtBlock(w: seq<Deal>, c: int)
    requires Sorted(w)
    ensures Older(w, c) + At(w, c) == Older(w, c + 1) <= |w|
  {
    OlderSplits(w, c);
    OlderSplits(w, c + 1);
    OlderMonotone(w, c, c + 1);
    var lo, hi := Older(w, c), Older(w, c + 1);
    assert w == (w[..lo] + w[lo..hi]) + w[hi..];
    SelectAppend(w[..lo] + w[lo..hi], w[hi..], AtTs(c));
    SelectAppend(w[..lo], w[lo..hi], AtTs(c));
    SelectNone(w[..lo], AtTs(c));
    SelectNone(w[hi..], AtTs(c));
    SelectAll(w[lo..hi], AtTs(c));
  }

  /** However many pages are allowed, none gets past a stalling millisecond: the row after its first
      thousand is never read. */
  lemma {:induction false} StallLosesRows(w: seq<Deal>, c: int, c0: int, pages: nat)
    requires Sorted(w) && c <= c0 && StallsAt(w, c0)
    ensures Reach(w, c, pages) <= Older(w, c0) + PAGE_ROWS < |w|
    decreases pages
  {
    if pages > 0 {
      OlderMonotone(w, c, c0);
      AtBlock(w, c0);
      OlderSplits(w, c0 + 1);
      var end := Min(Older(w, c) + PAGE_ROWS, |w|);
      assert end - 1 < Older(w, c0 + 1) && w[end - 1].ts <= c0;
      if pages > 1 && w[end - 1].ts > c {
        StallLosesRows(w, w[end - 1].ts, c0, pages - 1);
      }
    }
  }

  /** A page that is not the last moves on by all its rows but those at its final timestamp. */
  lemma PageAdvances(w: seq<Deal>, c: int)
    requires Sorted(w) && Older(w, c) + PAGE_ROWS < |w|
    ensures var last := w[Older(w, c) + PAGE_ROWS - 1].ts;
      Older(w, last) + At(w, last) >= Older(w, c) + PAGE_ROWS
  {
    var end := Older(w, c) + PAGE_ROWS;
    var last := w[end - 1].ts;
    AtBlock(w, last);
    OlderSplits(w, last + 1);
  }

  /** Without a stalling millisecond each unfinished page moves the cursor and the position forward. */
  lemma NoStallProgress(w: seq<Deal>, c: int)
    requires Sorted(w) && Older(w, c) + PAGE_ROWS < |w| && forall t :: !StallsAt(w, t)
    ensures var last := w[Older(w, c) + PAGE_ROWS - 1].ts; last > c && Older(w, last) > Older(w, c)
  {
    var start := Older(w, c);
    var last := w[start + PAGE_ROWS - 1].ts;
    OlderSplits(w, c);
    OlderSplits(w, last);
    OlderSplits(w, last + 1);
    AtBlock(w, last);
    assert !StallsAt(w, last);
  }

  /** Leaving aside milliseconds that fill a page, and the last page of the window, no millisecond holds
      more than `most` deals. With `most` one below a page this says nothing. */
  ghost predicate Density(w: seq<Deal>, most: nat) {
    forall t :: At(w, t) < PAGE_ROWS && |w| - Older(w, t) > PAGE_ROWS ==> At(w, t) <= most
  }

  lemma EveryWindowHasADensity(w: seq<Deal>)
    ensures Density(w, PAGE_ROWS - 1)
  {
  }

  /** How many deals `pages` pages get through when each re-reads at most `most` of them. */
  function Capacity(pages: nat, most: nat): int {
    PAGE_ROWS + (pages - 1) * (PAGE_ROWS - most)
  }

  /** Within the capacity of the page cap, a window is read to its end exactly when no millisecond fills
      a page by itself with more to come. */
  lemma ReachesEndExactly(w: seq<Deal>, c: int, pages: nat, most: nat)
    requires Sorted(w) && Older(w, c) == 0 && pages > 0
    requires most < PAGE_ROWS && Density(w, most) && |w| <= Capacity(pages, most)
    ensures Reach(w, c, pages) == |w| <==> forall t :: t >= c ==> !StallsAt(w, t)
  {
    if t :| t >= c && StallsAt(w, t) {
      StallLosesRows(w, c, t, pages);
    } else {
      forall t ensures !StallsAt(w, t) {
        if t < c {
          AtBlock(w, t);
          OlderMonotone(w, t + 1, c);
        }
      }
      CapNotHit(w, c, pages, most);
    }
  }

  /** A window that never stalls and has no more left from `c` on than `pages` pages get through. */
  ghost predicate Affordable(w: seq<Deal>, c: int, pages: nat, most: nat) {
    && Sorted(w) && Older(w, c) <= |w| && pages > 0 && (forall t :: !StallsAt(w, t))
    && most < PAGE_ROWS && Density(w, most) && |w| - Older(w, c) <= Capacity(pages, most)
  }

  /** The page cap is out of reach for such a window. */
  lemma {:induction false} CapNotHit(w: seq<Deal>, c: int, pages: nat, most: nat)
    requires Affordable(w, c, pages, most)
    ensures Reach(w, c, pages) == |w|
    decreases pages
  {
    if Older(w, c) + PAGE_ROWS < |w| {
      var last := w[Older(w, c) + PAGE_ROWS - 1].ts;
      NextPageFits(w, c, last, pages, most);
      AffordableProgress(w, c, pages, most);
      ReachNext(w, c, last, pages);
      CapNotHit(w, last, pages - 1, most);
    }
  }

  lemma AffordableProgress(w: seq<Deal>, c: int, pages: nat, most: nat)
    requires Affordable(w, c, pages, most) && Older(w, c) + PAGE_ROWS < |w|
    ensures w[Older(w, c) + PAGE_ROWS - 1].ts > c
  {
    NoStallProgress(w, c);
  }

  lemma ReachNext(w: seq<Deal>, c: int, last: int, pages: nat)
    requires Older(w, c) + PAGE_ROWS < |w| && last == w[Older(w, c) + PAGE_ROWS - 1].ts && last > c && pages > 1
    ensures Reach(w, c, pages) == Reach(w, last, pages - 1)
  {
  }

  lemma NextPageFits(w: seq<Deal>, c: int, last: int, pages: nat, most: nat)
    requires Affordable(w, c, pages, most)
    requires Older(w, c) + PAGE_ROWS < |w| && last == w[Older(w, c) + PAGE_ROWS - 1].ts
    ensures pages > 1 && Affordable(w, last, pages - 1, most)
  {
    OlderSplits(w, last);
    CapacityStep(pages, most);
    if |w| - Older(w, last) > PAGE_ROWS {
      assert !StallsAt(w, last) && At(w, last) <= most;
      PageAdvances(w, c);
    }
  }

  lemma CapacityStep(pages: nat, most: nat)
    requires pages > 0 && most < PAGE_ROWS
    ensures Capacity(1, most) == PAGE_ROWS
    ensures pages > 1 ==>
      Capacity(pages, most) == Capacity(pages - 1, most) + (PAGE_ROWS - most) && Capacity(pages - 1, most) >= PAGE_ROWS
  {
    if pages > 1 {
      OneTimeMore(pages - 1, PAGE_ROWS - most);
    }
  }

  lemma OneTimeMore(n: nat, gain: nat)
    requires n > 0
    ensures n * gain == (n - 1) * gain + gain && (n - 1) * gain >= 0
  {
  }
}
