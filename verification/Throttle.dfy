/** The historical-request throttle that all accounts on one connection share. */
module Throttle {
  import opened Prelude

  datatype State = State(nextFree: real, blockedUntil: real)

  const Idle: State := State(0.0, 0.0)

  function Spacing(limit: int): real
    requires limit >= 1
  {
    1000.0 / limit as real
  }

  /** A clock reading may be anything, even earlier than the one before. */
  datatype Event = Reserve(clock: real) | Block(until: real)

  function Slot(s: State, clock: real): real {
    MaxR(MaxR(clock, s.nextFree), s.blockedUntil)
  }

  function Next(s: State, e: Event, limit: int): State
    requires limit >= 1
  {
    match e
    case Reserve(clock) => s.(nextFree := Slot(s, clock) + Spacing(limit))
    case Block(until) => s.(blockedUntil := MaxR(s.blockedUntil, until))
  }

  function After(events: seq<Event>, limit: int): State
    requires limit >= 1
  {
    if events == [] then Idle else Next(After(events[..|events| - 1], limit), events[|events| - 1], limit)
  }

  /** The slots handed out, in the order of the calls. */
  function Slots(events: seq<Event>, limit: int): seq<real>
    requires limit >= 1
  {
    if events == [] then []
    else
      var init, e := events[..|events| - 1], events[|events| - 1];
      Slots(init, limit) + if e.Reserve? then [Slot(After(init, limit), e.clock)] else []
  }

  class HistoricalThrottle {
    const limit: int
    const spacing: real
    var nextFree: real
    var blockedUntil: real
    ghost var events: seq<Event>

    ghost predicate Valid()
      reads this
    {
      limit >= 1 && spacing == Spacing(limit) && State(nextFree, blockedUntil) == After(events, limit)
    }

    constructor (limitPerSecond: int)
      requires limitPerSecond >= 1
      ensures Valid() && limit == limitPerSecond && events == []
    {
      limit := limitPerSecond;
      spacing := 1000.0 / limitPerSecond as real;
      nextFree, blockedUntil := 0.0, 0.0;
      events := [];
    }

    method BlockUntil(timestamp: real)
      requires Valid()
      modifies this
      ensures Valid() && events == old(events) + [Block(timestamp)]
    {
      blockedUntil := MaxR(blockedUntil, timestamp);
      events := events + [Block(timestamp)];
    }

    method NextSlotAt(clock: real) returns (at: real)
      requires Valid()
      modifies this
      ensures Valid() && events == old(events) + [Reserve(clock)]
      ensures Slots(events, limit) == Slots(old(events), limit) + [at]
    {
      at := MaxR(MaxR(clock, nextFree), blockedUntil);
      nextFree := at + spacing;
      events := events + [Reserve(clock)];
    }
  }

  // ---- spacing ---------------------------------------------------------------------------------

  ghost predicate Spaced(slots: seq<real>, gap: real) {
    forall i, j :: 0 <= i < j < |slots| ==> slots[j] - slots[i] >= gap
  }

  lemma SpacedSnoc(slots: seq<real>, x: real, gap: real)
    requires gap > 0.0 && Spaced(slots, gap) && (slots != [] ==> x - slots[|slots| - 1] >= gap)
    ensures Spaced(slots + [x], gap)
  {
    var all, n := slots + [x], |slots|;
    forall i, j | 0 <= i < j < |all| ensures all[j] - all[i] >= gap {
      if j == n && i < n - 1 {
        assert slots[n - 1] - slots[i] >= gap;
      }
    }
  }

  lemma TimesNext(n: int, gap: real)
    ensures n as real * gap == (n - 1) as real * gap + gap
  {
  }

  lemma {:induction false} SpacedSpan(slots: seq<real>, gap: real)
    requires slots != [] && Spaced(slots, gap)
    ensures slots[|slots| - 1] - slots[0] >= (|slots| - 1) as real * gap
  {
    var n := |slots| - 1;
    if n > 0 {
      SpacedSpan(slots[..n], gap);
      TimesNext(n, gap);
      assert slots[n] - slots[n - 1] >= gap;
    }
  }

  /** Consecutive slots are at least one spacing apart, and the next one will be too. */
  lemma {:induction false} SlotsAreSpaced(events: seq<Event>, limit: int)
    requires limit >= 1
    ensures var slots := Slots(events, limit);
      Spaced(slots, Spacing(limit))
      && (slots != [] ==> After(events, limit).nextFree == slots[|slots| - 1] + Spacing(limit))
  {
    if events != [] {
      var init, e := events[..|events| - 1], events[|events| - 1];
      SlotsAreSpaced(init, limit);
      WholeSecond(limit);
      if e.Reserve? {
        SpacedSnoc(Slots(init, limit), Slot(After(init, limit), e.clock), Spacing(limit));
      }
    }
  }

  lemma GrowsWith(n: int, m: int, gap: real)
    requires m <= n && gap >= 0.0
    ensures m as real * gap <= n as real * gap
  {
    var extra := (n - m) as real;
    assert n as real == m as real + extra;
    assert n as real * gap == m as real * gap + extra * gap;
    assert extra * gap >= 0.0;
  }

  lemma WholeSecond(limit: int)
    requires limit >= 1
    ensures limit as real * Spacing(limit) == 1000.0 && Spacing(limit) > 0.0
  {
    var l := limit as real;
    assert l * (1000.0 / l) == 1000.0;
  }

  function InSecond(from: real): real -> bool {
    (x: real) => from <= x < from + 1000.0
  }

  /** Leaving out slots keeps the rest spaced. */
  lemma {:induction false} SpacedSelect(slots: seq<real>, gap: real, p: real -> bool)
    requires gap > 0.0 && Spaced(slots, gap)
    ensures Spaced(Select(slots, p), gap)
  {
    if slots != [] {
      var n := |slots| - 1;
      var init, x := slots[..n], slots[n];
      assert slots == init + [x];
      SpacedSelect(init, gap, p);
      SelectSnoc(init, x, p);
      var kept := Select(init, p);
      if kept != [] {
        var last := kept[|kept| - 1];
        assert last in kept;
        SelectMembers(init, p);
        var i :| 0 <= i < n && init[i] == last;
        assert slots[n] - slots[i] >= gap;
        if p(x) {
          SpacedSnoc(kept, x, gap);
        }
      }
    }
  }

  lemma FewFit(kept: seq<real>, limit: int, from: real)
    requires limit >= 1 && Spaced(kept, Spacing(limit))
    requires kept != [] ==> from <= kept[0] && kept[|kept| - 1] < from + 1000.0
    ensures |kept| <= limit
  {
    if |kept| > limit {
      WholeSecond(limit);
      SpacedSpan(kept, Spacing(limit));
      GrowsWith(|kept| - 1, limit, Spacing(limit));
      assert false;
    }
  }

  lemma EndsSelected(slots: seq<real>, from: real)
    ensures var kept := Select(slots, InSecond(from));
      kept != [] ==> from <= kept[0] && kept[|kept| - 1] < from + 1000.0
  {
    var p := InSecond(from);
    var kept := Select(slots, p);
    SelectMembers(slots, p);
    if kept != [] {
      assert kept[0] in kept && kept[|kept| - 1] in kept;
    }
  }

  lemma FewFitIn(slots: seq<real>, limit: int, from: real)
    requires limit >= 1 && Spaced(slots, Spacing(limit))
    ensures |Select(slots, InSecond(from))| <= limit
  {
    WholeSecond(limit);
    SpacedSelect(slots, Spacing(limit), InSecond(from));
    EndsSelected(slots, from);
    FewFit(Select(slots, InSecond(from)), limit, from);
  }

  /** Whatever the clock says, no half-open second holds more slots than the limit: the slot `limit` calls later is
      a full second later. */
  lemma AtMostLimitPerSecond(events: seq<Event>, limit: int, from: real)
    requires limit >= 1
    ensures |Select(Slots(events, limit), InSecond(from))| <= limit
    ensures var slots := Slots(events, limit);
      forall i :: 0 <= i < |slots| - limit ==> slots[i + limit] >= slots[i] + 1000.0
  {
    SlotsAreSpaced(events, limit);
    FewFitIn(Slots(events, limit), limit, from);
    var slots := Slots(events, limit);
    forall i | 0 <= i < |slots| - limit ensures slots[i + limit] >= slots[i] + 1000.0 {
      ASecondLater(slots, limit, i);
    }
  }

  lemma ASecondLater(slots: seq<real>, limit: int, i: nat)
    requires limit >= 1 && Spaced(slots, Spacing(limit)) && i + limit < |slots|
    ensures slots[i + limit] >= slots[i] + 1000.0
  {
    var run := slots[i..i + limit + 1];
    assert forall j, k :: 0 <= j < k < |run| ==> run[k] - run[j] == slots[i + k] - slots[i + j];
    SpacedSpan(run, Spacing(limit));
    WholeSecond(limit);
  }

  // ---- back-off ----------------------------------------------------------------------------------

  lemma {:induction false} BlockedFrom(events: seq<Event>, limit: int, i: nat)
    requires limit >= 1 && i < |events| && events[i].Block?
    ensures After(events, limit).blockedUntil >= events[i].until
  {
    var n := |events| - 1;
    if i < n {
      BlockedFrom(events[..n], limit, i);
    }
  }

  /** A slot is never before its own clock reading, nor before any back-off announced earlier. */
  lemma NoSlotInsideABackOff(events: seq<Event>, limit: int, i: nat, clock: real)
    requires limit >= 1 && i < |events| && events[i].Block?
    ensures var slots := Slots(events + [Reserve(clock)], limit);
      |slots| >= 1 && slots[|slots| - 1] >= events[i].until && slots[|slots| - 1] >= clock
  {
    BlockedFrom(events, limit, i);
    assert (events + [Reserve(clock)])[..|events|] == events;
  }

  /** Nor does the throttle wait for longer than its three reasons: the clock, the spacing, a back-off. */
  lemma SlotIsEarliest(events: seq<Event>, limit: int, clock: real, x: real)
    requires limit >= 1 && x >= clock && x >= 0.0
    requires forall i :: 0 <= i < |events| && events[i].Block? ==> x >= events[i].until
    requires Spaced(Slots(events, limit) + [x], Spacing(limit))
    ensures Slot(After(events, limit), clock) <= x
  {
    var slots := Slots(events, limit);
    SlotsAreSpaced(events, limit);
    NoOtherBlock(events, limit, x);
    if slots != [] {
      var all, n := slots + [x], |slots|;
      assert all[n] - all[n - 1] >= Spacing(limit);
    } else {
      NeverReserved(events, limit);
    }
  }

  lemma {:induction false} NoOtherBlock(events: seq<Event>, limit: int, x: real)
    requires limit >= 1 && x >= 0.0
    requires forall i :: 0 <= i < |events| && events[i].Block? ==> x >= events[i].until
    ensures After(events, limit).blockedUntil <= x
  {
    if events != [] {
      NoOtherBlock(events[..|events| - 1], limit, x);
    }
  }

  lemma {:induction false} NeverReserved(events: seq<Event>, limit: int)
    requires limit >= 1 && Slots(events, limit) == []
    ensures After(events, limit).nextFree == 0.0
  {
    if events != [] {
      NeverReserved(events[..|events| - 1], limit);
    }
  }
}
