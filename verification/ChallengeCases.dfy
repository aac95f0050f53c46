/** Concrete runs that reach the states the challenge rules make exceptions for. */
module ChallengeCases {
  import opened Prelude
  import opened ChallengeStatus
  import opened Challenges
  import opened ChallengeInvariants
  import opened ChallengeRuns

  lemma Unroll(events: seq<Event>, k: nat)
    requires k < |events|
    ensures After(EMPTY, events[..k + 1]) == Next(After(EMPTY, events[..k]), events[k].step, events[k].now)
  {
    assert events[..k + 1][..k] == events[..k];
  }

  /** User 1 starts a challenge: account 10, group 100, challenge row 1000. */
  const Begin: Event := Event(DoProvision(1, 10, None, None, 100, 1000), 0)

  /** The account's next phase joins it: account 11, challenge row 1001. */
  const Join: Event := Event(DoProvision(1, 11, None, Some(100), 101, 1001), 1)

  function Begun(): Db {
    Db(map[1000 := FreshChallenge(10)], map[10 := Account(1, None, Some(100), true, None, None)],
       map[100 := Group(1, Running, None, true, None)])
  }

  lemma Begins(events: seq<Event>)
    requires events != [] && events[0] == Begin
    ensures After(EMPTY, events[..1]) == Begun()
  {
    Unroll(events, 0);
    assert events[..0] == [];
  }

  // ---- a breach in a running group -----------------------------------------------------------

  const BreachAdvance: seq<Event> := [Begin, Event(DoAdvance(1, 10, Breached, Some(MaxDd), 1001), 1)]

  /** Advanced by hand as a breach: the group runs on with a breached row in it. */
  lemma AdvanceLeavesBreachRunning()
    ensures var db := After(EMPTY, BreachAdvance);
      100 in db.groups && db.groups[100].status == Running && GroupHasBreach(db, 100)
  {
    Begins(BreachAdvance);
    Unroll(BreachAdvance, 1);
    assert BreachAdvance[..2] == BreachAdvance;
    var db := After(EMPTY, BreachAdvance);
    assert IsActiveRow(Begun(), 1000, 10);
    assert db.challenges[1000].status == Breached && InGroup(db, 10, 100);
  }

  // ---- a failed group without a breach ---------------------------------------------------------

  const BreachDeleted: seq<Event> := [
    Begin, Join, Event(DoSettle(10, Outcome(Breached, Some(MaxDd), None)), 2), Event(DoDelete(1, 10), 3)]

  function Joined(): Db {
    Db(map[1000 := FreshChallenge(10), 1001 := FreshChallenge(11)],
       map[10 := Account(1, None, Some(100), true, None, None), 11 := Account(1, None, Some(100), true, None, None)],
       map[100 := Group(1, Running, None, true, None)])
  }

  /** The breached phase deleted: the group is still failed, and the account left in it never breached. */
  lemma DeleteLeavesFailure()
    ensures var db := After(EMPTY, BreachDeleted);
      100 in db.groups && db.groups[100].status == Failed && !GroupHasBreach(db, 100)
  {
    Unroll(BreachDeleted, 3);
    assert BreachDeleted[..4] == BreachDeleted;
    FirstPhaseBreached();
    LastBreachDeleted(After(EMPTY, BreachDeleted[..3]));
  }

  /** The failed group still has a member, and no breach but the one in account 10. */
  ghost predicate OneBreach(db: Db) {
    && Invariant(db) && Owns(db, 1, 10) && db.accounts[10].group == Some(100) && db.groups[100].status == Failed
    && OtherMember(db, 10, 100) && !OtherBreach(db, 10, 100)
  }

  lemma LastBreachDeleted(db: Db)
    requires OneBreach(db)
    ensures var d := Next(db, DoDelete(1, 10), 3);
      100 in d.groups && d.groups[100].status == Failed && !GroupHasBreach(d, 100)
  {
    DeleteMembers(db, 1, 10, 100, 3);
  }

  lemma FirstPhaseBreached()
    ensures OneBreach(After(EMPTY, BreachDeleted[..3]))
  {
    BothPhases();
    Unroll(BreachDeleted, 2);
    EveryRun(BreachDeleted[..3]);
    SettledBreach(Joined(), After(EMPTY, BreachDeleted[..3]));
  }

  lemma BothPhases()
    ensures After(EMPTY, BreachDeleted[..2]) == Joined()
  {
    Begins(BreachDeleted);
    Unroll(BreachDeleted, 1);
  }

  lemma SettledBreach(db: Db, d: Db)
    requires db == Joined() && d == Settle(db, 10, Outcome(Breached, Some(MaxDd), None), 2)
    ensures Owns(d, 1, 10) && d.accounts[10].group == Some(100) && 100 in d.groups && d.groups[100].status == Failed
    ensures OtherMember(d, 10, 100) && !OtherBreach(d, 10, 100)
  {
    assert IsActiveRow(db, 1000, 10) && InGroup(db, 10, 100);
    assert InGroup(d, 11, 100);
  }

  // ---- a group that lags ----------------------------------------------------------------------

  const ArchivedAlone: seq<Event> := [Begin, Event(DoSetActive(1, 10, false), 1)]

  /** Archived, not yet reconciled: the group is active with no active account. */
  lemma ArchiveLags()
    ensures var db := After(EMPTY, ArchivedAlone); 100 in db.groups && !InStep(db, 100)
    ensures 100 in OwedAfter(ArchivedAlone)
  {
    Begins(ArchivedAlone);
    Unroll(ArchivedAlone, 1);
    assert ArchivedAlone[..2] == ArchivedAlone;
    assert ArchivedAlone[..1][..0] == [];
  }
}
