/** The backfill windows: newest first, contiguous, and resumable from any lower edge. */
module Windows {
  import opened Prelude

  const DAY: int := 24 * 60 * 60 * 1000
  const WINDOW_MS: int := 30 * DAY
  const MAX_WINDOWS: nat := 122

  datatype Window = Window(from: int, to: int)

  /** `Number.isFinite(Number(x)) && x`: a missing value, and 0, both read as absent. */
  predicate Given(x: Option<int>) {
    x.Some? && x.value != 0
  }

  function Top(now: int, cursorAt: Option<int>): int {
    if Given(cursorAt) then cursorAt.value else now
  }

  function Floor(top: int, registeredAt: Option<int>): int {
    if Given(registeredAt) then registeredAt.value else top - MAX_WINDOWS * WINDOW_MS
  }

  method BackfillWindows(now: int, registeredAt: Option<int>, cursorAt: Option<int>) returns (windows: seq<Window>)
    ensures windows == Walk(Top(now, cursorAt), Floor(Top(now, cursorAt), registeredAt), MAX_WINDOWS)
  {
    var top := if cursorAt.Some? && cursorAt.value != 0 then cursorAt.value else now;
    var floor := if registeredAt.Some? && registeredAt.value != 0 then registeredAt.value
                 else top - MAX_WINDOWS * WINDOW_MS;
    windows := WalkDown(top, floor, MAX_WINDOWS);
  }

  /** Its loop. */
  method WalkDown(top: int, floor: int, most: nat) returns (windows: seq<Window>)
    ensures windows == Walk(top, floor, most)
  {
    windows := [];
    var to := top;
    while to > floor && |windows| < most
      invariant |windows| <= most
      invariant Walk(top, floor, most) == windows + Walk(to, floor, most - |windows|)
      decreases most - |windows|
    {
      var from := Max(to - WINDOW_MS, floor);
      assert Walk(to, floor, most - |windows|) == [Window(from, to)] + Walk(from, floor, most - |windows| - 1);
      windows := windows + [Window(from, to)];
      to := from;
    }
  }

  /** At most `n` windows down from `to`, never below `floor`. */
  function Walk(to: int, floor: int, n: nat): seq<Window>
    decreases n
  {
    if to <= floor || n == 0 then []
    else
      var from := Max(to - WINDOW_MS, floor);
      [Window(from, to)] + Walk(from, floor, n - 1)
  }

  /** Non-empty windows of at most 30 days, each starting where the newer one begins. */
  predicate Tiles(windows: seq<Window>, low: int, high: int) {
    && (forall i :: 0 <= i < |windows| ==> windows[i].from < windows[i].to <= windows[i].from + WINDOW_MS)
    && (forall i :: 0 < i < |windows| ==> windows[i].to == windows[i - 1].from)
    && (if windows == [] then low == high
        else windows[0].to == high && windows[|windows| - 1].from == low)
  }

  /** How far down `n` windows from `to` get. */
  function Low(to: int, floor: int, n: nat): int {
    if to <= floor then to else Max(floor, to - n * WINDOW_MS)
  }

  lemma LowStep(to: int, floor: int, n: nat)
    requires to > floor && n > 0
    ensures Low(Max(to - WINDOW_MS, floor), floor, n - 1) == Low(to, floor, n)
  {
    var from := Max(to - WINDOW_MS, floor);
    assert from - (n - 1) * WINDOW_MS >= to - n * WINDOW_MS;
    assert from > floor ==> from - (n - 1) * WINDOW_MS == to - n * WINDOW_MS;
  }

  /** The walk tiles exactly the span it can reach. */
  lemma {:induction false} WalkTiles(to: int, floor: int, n: nat)
    ensures Tiles(Walk(to, floor, n), Low(to, floor, n), to) && |Walk(to, floor, n)| <= n
    decreases n
  {
    if to > floor && n > 0 {
      var from := Max(to - WINDOW_MS, floor);
      WalkTiles(from, floor, n - 1);
      LowStep(to, floor, n);
      TilesCons(Window(from, to), Walk(from, floor, n - 1), Low(to, floor, n));
    }
  }

  lemma TilesCons(w: Window, rest: seq<Window>, low: int)
    requires w.from < w.to <= w.from + WINDOW_MS && Tiles(rest, low, w.from)
    ensures Tiles([w] + rest, low, w.to)
  {
    var all := [w] + rest;
    assert forall i :: 0 < i < |all| ==> all[i] == rest[i - 1];
  }

  /** backfillWindows covers `[max(floor, top - 122 windows), top]`, newest first. */
  lemma BackfillTiles(now: int, registeredAt: Option<int>, cursorAt: Option<int>)
    ensures var top := Top(now, cursorAt); var floor := Floor(top, registeredAt);
      var windows := Walk(top, floor, MAX_WINDOWS);
      && Tiles(windows, Low(top, floor, MAX_WINDOWS), top)
      && |windows| <= MAX_WINDOWS
      && (windows != [] <==> top > floor)
  {
    WalkTiles(Top(now, cursorAt), Floor(Top(now, cursorAt), registeredAt), MAX_WINDOWS);
  }

  /** Window `i` covers the thirty days ending `i` times thirty days below the top, cut off at the floor. */
  predicate IsWindow(w: Window, top: int, floor: int, i: nat) {
    && w.to == top - i * 2592000000 && w.to > floor
    && w.from == (if w.to - 2592000000 > floor then w.to - 2592000000 else floor)
  }

  lemma {:induction false} WalkIs(to: int, floor: int, n: nat)
    ensures var windows := Walk(to, floor, n);
      && |windows| <= n
      && (forall i :: 0 <= i < |windows| ==> IsWindow(windows[i], to, floor, i))
      && (|windows| == n || to - |windows| * 2592000000 <= floor)
    decreases n
  {
    if to > floor && n > 0 {
      var from := Max(to - WINDOW_MS, floor);
      var rest := Walk(from, floor, n - 1);
      WalkIs(from, floor, n - 1);
      forall i | 0 <= i < |rest| ensures IsWindow(rest[i], to, floor, i + 1) {
        assert IsWindow(rest[i], from, floor, i);
      }
    }
  }

  /** The list a backfill walks, from its three arguments: from the cursor, or from now without one, thirty days at
      a time, to the registration date or, without one, 122 windows down; never more than 122. */
  lemma WindowsAre(now: int, registeredAt: Option<int>, cursorAt: Option<int>, top: int, floor: int)
    requires top == if cursorAt.Some? && cursorAt.value != 0 then cursorAt.value else now
    requires floor == if registeredAt.Some? && registeredAt.value != 0 then registeredAt.value
                      else top - 122 * 2592000000
    ensures var windows := Walk(Top(now, cursorAt), Floor(Top(now, cursorAt), registeredAt), MAX_WINDOWS);
      && |windows| <= 122
      && (forall i :: 0 <= i < |windows| ==> IsWindow(windows[i], top, floor, i))
      && (|windows| == 122 || top - |windows| * 2592000000 <= floor)
  {
    assert Top(now, cursorAt) == top && Floor(top, registeredAt) == floor;
    WalkIs(top, floor, MAX_WINDOWS);
  }

  /** Every instant in the span is inside some window. */
  lemma {:induction false} TilesCover(windows: seq<Window>, low: int, high: int, at: int) returns (i: nat)
    requires Tiles(windows, low, high) && windows != [] && low <= at <= high
    ensures i < |windows| && windows[i].from <= at <= windows[i].to
  {
    i := 0;
    while windows[i].from > at
      invariant i < |windows| && at <= windows[i].to
      decreases |windows| - i
    {
      i := i + 1;
    }
  }

  /** ...and no window reaches outside it. */
  lemma {:induction false} TilesInside(windows: seq<Window>, low: int, high: int, i: nat)
    requires Tiles(windows, low, high) && i < |windows|
    ensures low <= windows[i].from && windows[i].to <= high
  {
    var k := 0;
    while k < i
      invariant k <= i && windows[k].to <= high && windows[i].from <= windows[i].to
      decreases i - k
    {
      k := k + 1;
    }
    k := |windows| - 1;
    while k > i
      invariant i <= k < |windows| && low <= windows[k].from
      decreases k
    {
      k := k - 1;
    }
  }

  // ---- resuming --------------------------------------------------------------------------

  lemma {:induction false} WalkSuffix(to: int, floor: int, n: nat, k: nat)
    requires k < |Walk(to, floor, n)| && k < n
    ensures Walk(Walk(to, floor, n)[k].from, floor, n - k - 1) == Walk(to, floor, n)[k + 1..]
    decreases k
  {
    var from := Max(to - WINDOW_MS, floor);
    var rest := Walk(from, floor, n - 1);
    assert Walk(to, floor, n)[1..] == rest;
    if k > 0 {
      WalkSuffix(from, floor, n - 1, k - 1);
    }
  }

  /** With room to reach the floor, a larger budget changes nothing. */
  lemma {:induction false} BudgetToSpare(to: int, floor: int, n: nat, m: nat)
    requires n <= m && to - n * WINDOW_MS <= floor
    ensures Walk(to, floor, m) == Walk(to, floor, n)
    decreases n
  {
    if to > floor {
      var from := Max(to - WINDOW_MS, floor);
      assert from == floor || from - (n - 1) * WINDOW_MS <= floor;
      if n > 0 && from > floor {
        BudgetToSpare(from, floor, n - 1, m - 1);
      }
    }
  }

  /** Resuming from the lower edge of window `k` walks exactly what was left when the known floor was in the
      budget's reach, and only then: with an older floor the fresh budget walks on past it. An edge on the
      epoch itself, which a floor after the epoch rules out, reads as no cursor. */
  lemma ResumeIsRemainder(now: int, later: int, registeredAt: Option<int>, k: nat)
    requires Given(registeredAt) && later > 0 && k < |Walk(now, registeredAt.value, MAX_WINDOWS)|
    ensures var windows := Walk(now, registeredAt.value, MAX_WINDOWS);
      var cursorAt := Some(windows[k].from);
      Walk(Top(later, cursorAt), Floor(Top(later, cursorAt), registeredAt), MAX_WINDOWS) == windows[k + 1..]
      <==> windows[k].from != 0 && now - MAX_WINDOWS * WINDOW_MS <= registeredAt.value
    ensures registeredAt.value > 0 ==> Walk(now, registeredAt.value, MAX_WINDOWS)[k].from != 0
  {
    var floor := registeredAt.value;
    var edge := Walk(now, floor, MAX_WINDOWS)[k].from;
    EdgeIsDeep(now, floor, MAX_WINDOWS, k);
    if edge == 0 {
      SuffixTop(now, floor, MAX_WINDOWS, k);
      TopOf(later, floor, MAX_WINDOWS);
    } else if now - MAX_WINDOWS * WINDOW_MS <= floor {
      RemainderFromEdge(now, floor, MAX_WINDOWS, k);
    } else {
      WalksPast(now, floor, MAX_WINDOWS, k);
    }
  }

  /** A walk that has anywhere to go starts at its top. */
  lemma TopOf(to: int, floor: int, n: nat)
    requires to > floor && n > 0
    ensures Walk(to, floor, n) != [] && Walk(to, floor, n)[0].to == to
  {
  }

  lemma SuffixTop(to: int, floor: int, n: nat, k: nat)
    requires k < |Walk(to, floor, n)|
    ensures var rest := Walk(to, floor, n)[k + 1..]; rest != [] ==> rest[0].to == Walk(to, floor, n)[k].from
  {
    WalkTiles(to, floor, n);
  }

  /** Out of reach of the floor, a fresh budget from any edge walks more windows than were left. */
  lemma WalksPast(now: int, floor: int, n: nat, k: nat)
    requires floor < now - n * WINDOW_MS && k < |Walk(now, floor, n)|
    ensures |Walk(Walk(now, floor, n)[k].from, floor, n)| > |Walk(now, floor, n)| - k - 1
  {
    EdgeIsDeep(now, floor, n, k);
    WalkTiles(now, floor, n);
    var m := n - k - 1;
    assert (k + 1) * WINDOW_MS + m * WINDOW_MS == n * WINDOW_MS;
    LongWalk(now - (k + 1) * WINDOW_MS, floor, n, m);
  }

  lemma {:induction false} LongWalk(to: int, floor: int, n: nat, m: nat)
    requires to - floor > m * WINDOW_MS && m < n
    ensures |Walk(to, floor, n)| > m
    decreases m
  {
    if m > 0 {
      assert (m - 1) * WINDOW_MS + WINDOW_MS == m * WINDOW_MS;
      LongWalk(to - WINDOW_MS, floor, n - 1, m - 1);
    }
  }

  lemma RemainderFromEdge(now: int, floor: int, n: nat, k: nat)
    requires now - n * WINDOW_MS <= floor && k < |Walk(now, floor, n)|
    ensures var windows := Walk(now, floor, n);
      Walk(windows[k].from, floor, n) == windows[k + 1..] && windows[k].from >= floor
  {
    var edge := Walk(now, floor, n)[k].from;
    EdgeIsDeep(now, floor, n, k);
    WalkSuffix(now, floor, n, k);
    BudgetToSpare(edge, floor, n - k - 1, n);
  }

  lemma {:induction false} EdgeIsDeep(to: int, floor: int, n: nat, k: nat)
    requires k < |Walk(to, floor, n)|
    ensures Walk(to, floor, n)[k].from == Max(floor, to - (k + 1) * WINDOW_MS)
    ensures k < n
    decreases k
  {
    var from := Max(to - WINDOW_MS, floor);
    assert Walk(to, floor, n)[1..] == Walk(from, floor, n - 1);
    if k > 0 {
      EdgeIsDeep(from, floor, n - 1, k - 1);
      assert from - k * WINDOW_MS >= to - (k + 1) * WINDOW_MS;
    }
  }

  /** Without a known floor a resume moves the floor too: it walks 122 windows again. */
  lemma ResumeWithoutFloorWalksOn(now: int, later: int, edge: int)
    requires edge != 0
    ensures var cursorAt := Some(edge);
      |Walk(Top(later, cursorAt), Floor(Top(later, cursorAt), None), MAX_WINDOWS)| == MAX_WINDOWS
  {
    FullWalk(edge, edge - MAX_WINDOWS * WINDOW_MS, MAX_WINDOWS);
  }

  lemma {:induction false} FullWalk(to: int, floor: int, n: nat)
    requires to - floor == n * WINDOW_MS
    ensures |Walk(to, floor, n)| == n
    decreases n
  {
    if n > 0 {
      assert to - WINDOW_MS - floor == (n - 1) * WINDOW_MS;
      FullWalk(to - WINDOW_MS, floor, n - 1);
    }
  }
}
