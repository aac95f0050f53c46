/** Longest win and loss runs: the gap-and-islands CTEs against the two running loops. */
module Streaks {
  import opened Prelude
  import opened Trades

  // ---- the CTEs seq, islands, runs and streaks, over outcomes in (close_time, id) order ----

  /** Rows of `s` whose outcome is `o`. */
  function Count(s: seq<Option<Outcome>>, o: Option<Outcome>): nat {
    if s == [] then 0
    else Count(s[..|s| - 1], o) + (if s[|s| - 1] == o then 1 else 0)
  }

  /** rn - row_number() OVER (PARTITION BY outcome ORDER BY rn), for row `i` (rn = i + 1). */
  function Grp(s: seq<Option<Outcome>>, i: nat): int
    requires i < |s|
  {
    i + 1 - Count(s[..i + 1], s[i])
  }

  /** count(*) ... GROUP BY outcome, grp. */
  function RunLen(s: seq<Option<Outcome>>, o: Option<Outcome>, grp: int): nat {
    |set i | 0 <= i < |s| && s[i] == o && Grp(s, i) == grp|
  }

  /** The `len` column of `runs` for one outcome. */
  function Lens(s: seq<Option<Outcome>>, o: Option<Outcome>): set<int> {
    set i | 0 <= i < |s| && s[i] == o :: RunLen(s, o, Grp(s, i))
  }

  /** COALESCE(max(len), 0). */
  predicate IsCoalescedMax(m: int, lens: set<int>) {
    (forall x :: x in lens ==> x <= m) && (if lens == {} then m == 0 else m in lens)
  }

  // ---- the loops -------------------------------------------------------------------------

  datatype Tally = Tally(win: nat, loss: nat, maxWin: nat, maxLoss: nat)

  function Advance(t: Tally, o: Option<Outcome>): Tally {
    var win := if o == Some(Win) then t.win + 1 else 0;
    var loss := if o == Some(Loss) then t.loss + 1 else 0;
    Tally(win, loss, Max(t.maxWin, win), Max(t.maxLoss, loss))
  }

  function Replay(s: seq<Option<Outcome>>): Tally {
    if s == [] then Tally(0, 0, 0, 0) else Advance(Replay(s[..|s| - 1]), s[|s| - 1])
  }

  lemma ReplaySnoc(s: seq<Option<Outcome>>, o: Option<Outcome>)
    ensures Replay(s + [o]) == Advance(Replay(s), o)
  {
    assert (s + [o])[..|s|] == s;
  }

  function Outcomes(ts: seq<Trade>, unit: Unit, beRound: bool): seq<Option<Outcome>> {
    seq(|ts|, i requires 0 <= i < |ts| => OutcomeOf(ts[i], unit, beRound))
  }

  /** streaks() in aggregations.js: an unscored row resets both runs. */
  method ServerStreaks(ts: seq<Trade>, unit: Unit, beRound: bool) returns (winStreak: nat, lossStreak: nat)
    ensures winStreak == Replay(Outcomes(ts, unit, beRound)).maxWin
    ensures lossStreak == Replay(Outcomes(ts, unit, beRound)).maxLoss
  {
    ghost var os := Outcomes(ts, unit, beRound);
    var win: nat, loss: nat := 0, 0;
    winStreak, lossStreak := 0, 0;
    for k := 0 to |ts|
      invariant Tally(win, loss, winStreak, lossStreak) == Replay(os[..k])
    {
      var o := OutcomeOf(ts[k], unit, beRound);
      if o == Some(Win) {
        win, loss := win + 1, 0;
      } else if o == Some(Loss) {
        loss, win := loss + 1, 0;
      } else {
        win, loss := 0, 0;
      }
      winStreak, lossStreak := Max(winStreak, win), Max(lossStreak, loss);
      assert os[..k + 1] == os[..k] + [o];
      ReplaySnoc(os[..k], o);
    }
    assert os[..|ts|] == os;
  }

  /** The client's loop (computeMetrics) with its trailing run counts, over the scored trades. */
  method ClientStreaks(ts: seq<Trade>, unit: Unit, beRound: bool)
    returns (bestWin: nat, bestLoss: nat, current: int)
    requires forall t :: t in ts ==> Raw(t, unit).Some?
    ensures bestWin == Replay(Outcomes(ts, unit, beRound)).maxWin
    ensures bestLoss == Replay(Outcomes(ts, unit, beRound)).maxLoss
    ensures current == var t := Replay(Outcomes(ts, unit, beRound)); if t.win > 0 then t.win else -(t.loss as int)
  {
    ghost var os := Outcomes(ts, unit, beRound);
    var curWin: int, curLoss: int := 0, 0;
    bestWin, bestLoss := 0, 0;
    for k := 0 to |ts|
      invariant curWin >= 0 && curLoss >= 0
      invariant Tally(curWin, curLoss, bestWin, bestLoss) == Replay(os[..k])
    {
      var o := OutcomeOf(ts[k], unit, beRound);
      if o == Some(Win) {
        curWin := if curWin >= 0 then curWin + 1 else 1;
        curLoss := 0;
      } else if o == Some(Loss) {
        curLoss := if curLoss >= 0 then curLoss + 1 else 1;
        curWin := 0;
      } else {
        curWin, curLoss := 0, 0;
      }
      bestWin, bestLoss := Max(bestWin, curWin), Max(bestLoss, curLoss);
      assert os[..k + 1] == os[..k] + [o];
      ReplaySnoc(os[..k], o);
    }
    assert os[..|ts|] == os;
    var trailingWin: int := Trailing(ts, unit, beRound, Win);
    var trailingLoss: int := Trailing(ts, unit, beRound, Loss);
    TrailingIsRun(os);
    current := if trailingWin > 0 then trailingWin else -(trailingLoss as int);
  }

  /** How many outcomes at the end of `s` are `o`. */
  function Tail(s: seq<Option<Outcome>>, o: Option<Outcome>): nat {
    if s == [] || s[|s| - 1] != o then 0 else 1 + Tail(s[..|s| - 1], o)
  }

  /** The backwards scans trailingWin and trailingLoss. */
  method Trailing(ts: seq<Trade>, unit: Unit, beRound: bool, o: Outcome) returns (n: nat)
    ensures n == Tail(Outcomes(ts, unit, beRound), Some(o))
  {
    ghost var os := Outcomes(ts, unit, beRound);
    n := 0;
    var i := |ts| - 1;
    assert os[..i + 1] == os;
    while i >= 0 && OutcomeOf(ts[i], unit, beRound) == Some(o)
      invariant -1 <= i < |ts|
      invariant n + Tail(os[..i + 1], Some(o)) == Tail(os, Some(o))
    {
      assert os[..i + 1][..i] == os[..i];
      n, i := n + 1, i - 1;
    }
  }

  lemma TrailingIsRun(s: seq<Option<Outcome>>)
    ensures Tail(s, Some(Win)) == Replay(s).win && Tail(s, Some(Loss)) == Replay(s).loss
  {
  }

  // ---- islands are maximal runs ----------------------------------------------------------

  lemma CountSnoc(s: seq<Option<Outcome>>, x: Option<Outcome>, o: Option<Outcome>)
    ensures Count(s + [x], o) == Count(s, o) + (if x == o then 1 else 0)
  {
    assert (s + [x])[..|s|] == s;
  }

  /** `grp` of a row counts the rows of any other outcome ahead of it. */
  lemma GrpCountsBreaks(s: seq<Option<Outcome>>, i: nat)
    requires i < |s|
    ensures Grp(s, i) == i - Count(s[..i], s[i])
  {
    assert s[..i + 1] == s[..i] + [s[i]];
    CountSnoc(s[..i], s[i], s[i]);
  }

  lemma {:induction false} CountBetween(s: seq<Option<Outcome>>, o: Option<Outcome>, i: nat, j: nat)
    requires i <= j <= |s|
    ensures 0 <= Count(s[..j], o) - Count(s[..i], o) <= j - i
    ensures Count(s[..j], o) - Count(s[..i], o) == j - i <==> forall k :: i <= k < j ==> s[k] == o
    decreases j - i
  {
    if i < j {
      CountBetween(s, o, i, j - 1);
      assert s[..j] == s[..j - 1] + [s[j - 1]];
      CountSnoc(s[..j - 1], s[j - 1], o);
    }
  }

  /** Two rows of one outcome share an island exactly when nothing else lies between them. */
  lemma IslandsAreMaximalRuns(s: seq<Option<Outcome>>, i: nat, j: nat)
    requires i <= j < |s| && s[i] == s[j]
    ensures Grp(s, i) == Grp(s, j) <==> forall k :: i <= k <= j ==> s[k] == s[i]
  {
    GrpCountsBreaks(s, i);
    GrpCountsBreaks(s, j);
    CountBetween(s, s[i], i, j);
  }

  // ---- the CTE equals the loop -----------------------------------------------------------

  /** The island a row of outcome `o` would fall into if it came next. */
  function NextGrp(s: seq<Option<Outcome>>, o: Option<Outcome>): int {
    |s| - Count(s, o)
  }

  lemma GrpStable(s: seq<Option<Outcome>>, x: Option<Outcome>, i: nat)
    requires i < |s|
    ensures Grp(s + [x], i) == Grp(s, i)
  {
    assert (s + [x])[..i + 1] == s[..i + 1];
  }

  lemma GrpOfLast(s: seq<Option<Outcome>>, x: Option<Outcome>)
    ensures Grp(s + [x], |s|) == NextGrp(s, x)
  {
    GrpCountsBreaks(s + [x], |s|);
    assert (s + [x])[..|s|] == s;
  }

  lemma GrpBound(s: seq<Option<Outcome>>, i: nat)
    requires i < |s|
    ensures Grp(s, i) <= NextGrp(s, s[i])
  {
    CountBetween(s, s[i], i + 1, |s|);
    assert s[..|s|] == s;
  }

  /** Appending a row lengthens the newest island of its own outcome and no other. */
  lemma RunLenSnoc(s: seq<Option<Outcome>>, x: Option<Outcome>, o: Option<Outcome>, grp: int)
    ensures RunLen(s + [x], o, grp)
         == RunLen(s, o, grp) + (if x == o && grp == NextGrp(s, o) then 1 else 0)
  {
    var t := s + [x];
    var members := set i | 0 <= i < |s| && s[i] == o && Grp(s, i) == grp;
    var extended := set i | 0 <= i < |t| && t[i] == o && Grp(t, i) == grp;
    forall i | 0 <= i < |s| ensures Grp(t, i) == Grp(s, i) {
      GrpStable(s, x, i);
    }
    GrpOfLast(s, x);
    forall i ensures i in extended <==> i in members || (i == |s| && x == o && grp == NextGrp(s, o)) {
      assert 0 <= i < |s| ==> t[i] == s[i];
    }
    if x == o && grp == NextGrp(s, o) {
      assert extended == members + {|s|};
    } else {
      assert extended == members;
    }
  }

  /** What both loops maintain for one outcome: the live run and the best run so far. */
  ghost predicate Tracks(s: seq<Option<Outcome>>, o: Option<Outcome>, cur: nat, best: nat) {
    cur == RunLen(s, o, NextGrp(s, o)) && IsCoalescedMax(best, Lens(s, o))
  }

  lemma NoFutureIsland(s: seq<Option<Outcome>>, o: Option<Outcome>, grp: int)
    requires grp > NextGrp(s, o)
    ensures RunLen(s, o, grp) == 0
  {
    forall i | 0 <= i < |s| && s[i] == o ensures Grp(s, i) != grp {
      GrpBound(s, i);
    }
    assert (set i | 0 <= i < |s| && s[i] == o && Grp(s, i) == grp) == {};
  }

  lemma TracksOther(s: seq<Option<Outcome>>, x: Option<Outcome>, o: Option<Outcome>, cur: nat, best: nat)
    requires Tracks(s, o, cur, best) && x != o
    ensures Tracks(s + [x], o, 0, best)
  {
    var t := s + [x];
    CountSnoc(s, x, o);
    RunLenSnoc(s, x, o, NextGrp(t, o));
    NoFutureIsland(s, o, NextGrp(t, o));
    LensAt(s, x, o);
    assert Lens(t, o) == Lens(s, o);
  }

  /** Run lengths of the old rows, seen after one more row. */
  lemma LensAt(s: seq<Option<Outcome>>, x: Option<Outcome>, o: Option<Outcome>)
    ensures forall i {:trigger Grp(s, i)} :: 0 <= i < |s| && s[i] == o ==>
      (s + [x])[i] == o && Grp(s + [x], i) == Grp(s, i)
      && RunLen(s + [x], o, Grp(s, i))
      == RunLen(s, o, Grp(s, i)) + (if x == o && Grp(s, i) == NextGrp(s, o) then 1 else 0)
  {
    forall i | 0 <= i < |s| && s[i] == o
      ensures Grp(s + [x], i) == Grp(s, i)
      ensures RunLen(s + [x], o, Grp(s, i))
      == RunLen(s, o, Grp(s, i)) + (if x == o && Grp(s, i) == NextGrp(s, o) then 1 else 0)
    {
      GrpStable(s, x, i);
      RunLenSnoc(s, x, o, Grp(s, i));
    }
  }

  lemma ExtendedLensBounded(s: seq<Option<Outcome>>, o: Option<Outcome>, cur: nat, best: nat)
    requires Tracks(s, o, cur, best)
    ensures forall n :: n in Lens(s + [o], o) ==> n <= Max(best, cur + 1)
  {
    var t := s + [o];
    forall n | n in Lens(t, o) ensures n <= Max(best, cur + 1) {
      var i :| 0 <= i < |t| && t[i] == o && n == RunLen(t, o, Grp(t, i));
      ExtendedLenBounded(s, o, cur, best, i);
    }
  }

  lemma ExtendedLenBounded(s: seq<Option<Outcome>>, o: Option<Outcome>, cur: nat, best: nat, i: nat)
    requires Tracks(s, o, cur, best) && i <= |s| && (s + [o])[i] == o
    ensures RunLen(s + [o], o, Grp(s + [o], i)) <= Max(best, cur + 1)
  {
    RunLenSnoc(s, o, o, Grp(s + [o], i));
    if i < |s| {
      GrpStable(s, o, i);
      assert RunLen(s, o, Grp(s, i)) in Lens(s, o);
    } else {
      GrpOfLast(s, o);
    }
  }

  lemma TracksSame(s: seq<Option<Outcome>>, o: Option<Outcome>, cur: nat, best: nat)
    requires Tracks(s, o, cur, best)
    ensures Tracks(s + [o], o, cur + 1, Max(best, cur + 1))
  {
    RunGrows(s, o);
    BestRun(s, o, cur, best);
  }

  lemma RunGrows(s: seq<Option<Outcome>>, o: Option<Outcome>)
    ensures RunLen(s + [o], o, NextGrp(s + [o], o)) == RunLen(s, o, NextGrp(s, o)) + 1
  {
    CountSnoc(s, o, o);
    RunLenSnoc(s, o, o, NextGrp(s, o));
  }

  lemma BestRun(s: seq<Option<Outcome>>, o: Option<Outcome>, cur: nat, best: nat)
    requires Tracks(s, o, cur, best)
    ensures IsCoalescedMax(Max(best, cur + 1), Lens(s + [o], o))
  {
    ExtendedLensBounded(s, o, cur, best);
    if best > cur + 1 {
      assert best in Lens(s, o);
      BestRunKept(s, o, best);
    } else {
      LiveRunLengthened(s, o);
    }
    LargestMember(Max(best, cur + 1), Lens(s + [o], o));
  }

  lemma LargestMember(m: int, lens: set<int>)
    requires m in lens && forall n :: n in lens ==> n <= m
    ensures IsCoalescedMax(m, lens)
  {
  }

  lemma LiveRunLengthened(s: seq<Option<Outcome>>, o: Option<Outcome>)
    ensures RunLen(s, o, NextGrp(s, o)) + 1 in Lens(s + [o], o)
  {
    var t := s + [o];
    RunLenSnoc(s, o, o, NextGrp(s, o));
    GrpOfLast(s, o);
    assert t[|s|] == o && RunLen(t, o, Grp(t, |s|)) in Lens(t, o);
  }

  lemma BestRunKept(s: seq<Option<Outcome>>, o: Option<Outcome>, best: nat)
    requires best in Lens(s, o) && best > RunLen(s, o, NextGrp(s, o))
    ensures best in Lens(s + [o], o)
  {
    var t := s + [o];
    var i :| 0 <= i < |s| && s[i] == o && best == RunLen(s, o, Grp(s, i));
    GrpStable(s, o, i);
    RunLenSnoc(s, o, o, Grp(s, i));
    assert t[i] == o && RunLen(t, o, Grp(t, i)) in Lens(t, o);
  }

  /** For every list, the loop's answer is the longest island, for wins and for losses. */
  lemma {:induction false} GapAndIslands(s: seq<Option<Outcome>>)
    ensures Tracks(s, Some(Win), Replay(s).win, Replay(s).maxWin)
    ensures Tracks(s, Some(Loss), Replay(s).loss, Replay(s).maxLoss)
  {
    if s != [] {
      var init, x := s[..|s| - 1], s[|s| - 1];
      assert s == init + [x];
      GapAndIslands(init);
      var t := Replay(init);
      if x == Some(Win) {
        TracksSame(init, x, t.win, t.maxWin);
      } else {
        TracksOther(init, x, Some(Win), t.win, t.maxWin);
      }
      if x == Some(Loss) {
        TracksSame(init, x, t.loss, t.maxLoss);
      } else {
        TracksOther(init, x, Some(Loss), t.loss, t.maxLoss);
      }
    }
  }

  // ---- unscored rows: the one place where the two disagree ---------------------------------

  predicate IsScored(o: Option<Outcome>) {
    o.Some?
  }

  /** WHERE raw IS NOT NULL. */
  function Scored(s: seq<Option<Outcome>>): seq<Option<Outcome>> {
    Select(s, IsScored)
  }

  lemma ScoredSnoc(s: seq<Option<Outcome>>, x: Option<Outcome>)
    ensures Scored(s + [x]) == if x.Some? then Scored(s) + [x] else Scored(s)
  {
    SelectSnoc(s, x, IsScored);
  }

  /** Keeping the unscored rows can only shorten what the loop finds. */
  lemma {:induction false} UnscoredRowsNeverLengthen(s: seq<Option<Outcome>>)
    ensures Replay(s).win <= Replay(Scored(s)).win && Replay(s).loss <= Replay(Scored(s)).loss
    ensures Replay(s).maxWin <= Replay(Scored(s)).maxWin && Replay(s).maxLoss <= Replay(Scored(s)).maxLoss
  {
    if s != [] {
      var init, x := s[..|s| - 1], s[|s| - 1];
      assert s == init + [x];
      UnscoredRowsNeverLengthen(init);
      ScoredSnoc(init, x);
      if x.Some? {
        ReplaySnoc(Scored(init), x);
      }
    }
  }

  /** The last scored row, if any, is a breakeven. */
  predicate OutsideRuns(before: seq<Option<Outcome>>) {
    var d := Scored(before);
    d == [] || d[|d| - 1] == Some(Breakeven)
  }

  /** Every unscored row arrives with no run live. */
  predicate NoRunInterrupted(s: seq<Option<Outcome>>) {
    forall k :: 0 <= k < |s| && s[k].None? ==> OutsideRuns(s[..k])
  }

  predicate AgreeThroughout(s: seq<Option<Outcome>>) {
    forall n :: 0 <= n <= |s| ==> Replay(s[..n]) == Replay(Scored(s[..n]))
  }

  lemma LiveRun(s: seq<Option<Outcome>>)
    requires forall x :: x in s ==> x.Some?
    ensures Replay(s).win == 0 && Replay(s).loss == 0 <==> s == [] || s[|s| - 1] == Some(Breakeven)
  {
    if s != [] {
      var x := s[|s| - 1];
      assert x in s;
      match x.value
      case Win => assert x == Some(Win);
      case Loss => assert x == Some(Loss);
      case Breakeven => assert x == Some(Breakeven);
    }
  }

  /** The loop over all rows and the loop over the scored rows stay in step, row after row,
      exactly when no unscored row falls inside a run. */
  lemma {:induction false} AgreeExactlyWhenNoRunInterrupted(s: seq<Option<Outcome>>)
    ensures AgreeThroughout(s) <==> NoRunInterrupted(s)
  {
    if s == [] {
      assert s[..0] == [];
    } else {
      var init, x := s[..|s| - 1], s[|s| - 1];
      assert s == init + [x] && s[..|s|] == s;
      AgreeExactlyWhenNoRunInterrupted(init);
      assert init[..|init|] == init;
      AgreeStep(s);
      InterruptStep(s);
      if AgreeThroughout(init) {
        assert Replay(init[..|init|]) == Replay(Scored(init[..|init|]));
        OneRowMore(init, x);
      }
    }
  }

  /** From equal tallies the two loops stay equal past a row unless it is unscored and a run is live. */
  lemma OneRowMore(init: seq<Option<Outcome>>, x: Option<Outcome>)
    requires Replay(init) == Replay(Scored(init))
    ensures Replay(init + [x]) == Replay(Scored(init + [x])) <==> (x.None? ==> OutsideRuns(init))
  {
    ReplaySnoc(init, x);
    ScoredSnoc(init, x);
    if x.Some? {
      ReplaySnoc(Scored(init), x);
    } else {
      SelectMembers(init, IsScored);
      LiveRun(Scored(init));
    }
  }

  lemma {:induction false} AgreeStep(s: seq<Option<Outcome>>)
    requires s != []
    ensures AgreeThroughout(s) <==> (AgreeThroughout(s[..|s| - 1]) && Replay(s) == Replay(Scored(s)))
  {
    var init := s[..|s| - 1];
    assert forall n :: 0 <= n <= |init| ==> init[..n] == s[..n];
    assert s[..|s|] == s;
  }

  lemma {:induction false} InterruptStep(s: seq<Option<Outcome>>)
    requires s != []
    ensures var init := s[..|s| - 1];
      NoRunInterrupted(s) <==> (NoRunInterrupted(init) && (s[|s| - 1].None? ==> OutsideRuns(init)))
  {
    var init := s[..|s| - 1];
    forall k | 0 <= k < |init| ensures init[..k] == s[..k] {
    }
    if NoRunInterrupted(s) {
      forall k | 0 <= k < |init| && init[k].None? ensures OutsideRuns(init[..k]) {
        assert s[k].None? && OutsideRuns(s[..k]);
      }
    }
  }

  // ---- the two answers themselves ----------------------------------------------------------

  /** Rows `lo` to `hi` all have outcome `o`. */
  predicate IsRun(s: seq<Option<Outcome>>, o: Option<Outcome>, lo: int, hi: int) {
    0 <= lo <= hi <= |s| && forall k :: lo <= k < hi ==> s[k] == o
  }

  ghost predicate HasRun(s: seq<Option<Outcome>>, o: Option<Outcome>, n: nat) {
    exists lo, hi :: IsRun(s, o, lo, hi) && hi - lo == n
  }

  /** The live run and the best run the loop keeps for one outcome. */
  function Live(t: Tally, o: Outcome): nat {
    if o == Win then t.win else if o == Loss then t.loss else 0
  }

  function Best(t: Tally, o: Outcome): nat {
    if o == Win then t.maxWin else if o == Loss then t.maxLoss else 0
  }

  lemma {:induction false} RunsEndingLast(s: seq<Option<Outcome>>, o: Outcome)
    requires o != Breakeven
    ensures IsRun(s, Some(o), |s| - Live(Replay(s), o), |s|)
    ensures forall lo :: IsRun(s, Some(o), lo, |s|) ==> |s| - lo <= Live(Replay(s), o)
  {
    if s != [] {
      var init, x := s[..|s| - 1], s[|s| - 1];
      assert s == init + [x];
      RunsEndingLast(init, o);
      forall lo | IsRun(s, Some(o), lo, |s|) ensures |s| - lo <= Live(Replay(s), o) {
        if lo < |s| {
          assert s[|s| - 1] == Some(o);
          assert IsRun(init, Some(o), lo, |init|);
        }
      }
    }
  }

  /** The best run is the longest stretch of rows that all have the outcome. */
  lemma {:induction false} BestIsLongest(s: seq<Option<Outcome>>, o: Outcome)
    requires o != Breakeven
    ensures HasRun(s, Some(o), Best(Replay(s), o))
    ensures forall lo, hi :: IsRun(s, Some(o), lo, hi) ==> hi - lo <= Best(Replay(s), o)
  {
    if s == [] {
      assert IsRun(s, Some(o), 0, 0);
    } else {
      var init := s[..|s| - 1];
      BestIsLongest(init, o);
      RunsEndingLast(s, o);
      BestOrLive(s, o);
      forall lo, hi | IsRun(s, Some(o), lo, hi) ensures hi - lo <= Best(Replay(s), o) {
        if hi < |s| {
          assert IsRun(init, Some(o), lo, hi);
        }
      }
    }
  }

  lemma BestOrLive(s: seq<Option<Outcome>>, o: Outcome)
    requires s != [] && o != Breakeven
    requires HasRun(s[..|s| - 1], Some(o), Best(Replay(s[..|s| - 1]), o))
    requires IsRun(s, Some(o), |s| - Live(Replay(s), o), |s|)
    ensures Best(Replay(s), o) == Max(Best(Replay(s[..|s| - 1]), o), Live(Replay(s), o))
    ensures HasRun(s, Some(o), Best(Replay(s), o))
  {
    BestSnoc(s, o);
    RunsStay(s, Some(o), Best(Replay(s[..|s| - 1]), o));
    if Best(Replay(s), o) == Live(Replay(s), o) {
      RunWitness(s, Some(o), |s| - Live(Replay(s), o), |s|);
    }
  }

  lemma BestSnoc(s: seq<Option<Outcome>>, o: Outcome)
    requires s != [] && o != Breakeven
    ensures Best(Replay(s), o) == Max(Best(Replay(s[..|s| - 1]), o), Live(Replay(s), o))
  {
  }

  lemma RunWitness(s: seq<Option<Outcome>>, o: Option<Outcome>, lo: int, hi: int)
    requires IsRun(s, o, lo, hi)
    ensures HasRun(s, o, hi - lo)
  {
  }

  lemma RunsStay(s: seq<Option<Outcome>>, o: Option<Outcome>, n: nat)
    requires s != [] && HasRun(s[..|s| - 1], o, n)
    ensures HasRun(s, o, n)
  {
    var lo, hi :| IsRun(s[..|s| - 1], o, lo, hi) && hi - lo == n;
    assert IsRun(s, o, lo, hi);
  }

  /** What the loop returns over all rows is what the database returns exactly when some longest run of
      the scored rows has no unscored row inside it; wins and losses are judged separately. */
  lemma SameAnswerExactly(s: seq<Option<Outcome>>, o: Outcome)
    requires o != Breakeven
    ensures Best(Replay(s), o) == Best(Replay(Scored(s)), o) <==> HasRun(s, Some(o), Best(Replay(Scored(s)), o))
  {
    BestIsLongest(s, o);
    UnscoredRowsNeverLengthen(s);
    if HasRun(s, Some(o), Best(Replay(Scored(s)), o)) {
      var lo, hi :| IsRun(s, Some(o), lo, hi) && hi - lo == Best(Replay(Scored(s)), o);
    }
  }

  /** Win, unscored, win: the loop says 1, the database says 2. */
  lemma UnscoredRowSplitsARun()
    ensures var s := [Some(Win), None, Some(Win)];
      Replay(s).maxWin == 1 && Replay(Scored(s)).maxWin == 2
  {
    var s: seq<Option<Outcome>> := [Some(Win), None, Some(Win)];
    ReplaySnoc([], Some(Win));
    ReplaySnoc([Some(Win)], None);
    ReplaySnoc([Some(Win), None], Some(Win));
    assert [] + [Some(Win)] == [Some(Win)] && [Some(Win)] + [None] == [Some(Win), None];
    assert [Some(Win), None] + [Some(Win)] == s;
    ScoredSnoc([], Some(Win));
    ScoredSnoc([Some(Win)], None);
    ScoredSnoc([Some(Win), None], Some(Win));
    ReplaySnoc([Some(Win)], Some(Win));
  }

  // ---- the whole query -------------------------------------------------------------------

  /** The outcome column of `seq`: the scored rows of the table, in order. */
  function SeqCte(rows: seq<Trade>, unit: Unit, beRound: bool): seq<Option<Outcome>> {
    var scored := Select(rows, HasRaw(unit));
    seq(|scored|, i requires 0 <= i < |scored| => OutcomeSql(scored[i], unit, beRound))
  }

  /** The `streaks` row the query returns is what streaks() computes on the snapped scored rows. */
  lemma StreaksCteRefinesLoop(rows: seq<Trade>, unit: Unit, beRound: bool)
    ensures var js := Replay(Outcomes(SnapBeRounding(Select(rows, HasRaw(unit)), beRound), unit, beRound));
      IsCoalescedMax(js.maxWin, Lens(SeqCte(rows, unit, beRound), Some(Win)))
      && IsCoalescedMax(js.maxLoss, Lens(SeqCte(rows, unit, beRound), Some(Loss)))
  {
    var scored := Select(rows, HasRaw(unit));
    forall i | 0 <= i < |scored|
      ensures OutcomeOf(Snap(scored[i], beRound), unit, beRound) == OutcomeSql(scored[i], unit, beRound)
    {
      SnappedTwins(scored[i], unit, beRound);
    }
    assert Outcomes(SnapBeRounding(scored, beRound), unit, beRound) == SeqCte(rows, unit, beRound);
    GapAndIslands(SeqCte(rows, unit, beRound));
  }
}
