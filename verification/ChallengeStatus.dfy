/** When a phase is over, and which verdicts a trader has silenced. */
module ChallengeStatus {
  import opened Prelude

  datatype Status = Active | Passed | Breached

  datatype Reason = DailyDd | MaxDd | OtherReason(code: string)

  /** A verdict, and equally the stored {status, reason, day} of a silenced one. */
  datatype Outcome = Outcome(status: Status, reason: Option<Reason>, day: Option<string>)

  const NOTHING := Outcome(Active, None, None)

  /** The engine's reading: the fields resolveChallengeOutcome looks at. */
  datatype Reading = Reading(
    hasMaxDd: bool, breached: bool, breachReason: Option<Reason>, dailyDay: Option<string>,
    targetReached: bool, daysMet: bool)

  /** resolveChallengeOutcome for a challenge row (absent, or with a status) and a reading. */
  function Resolve(challenge: Option<Status>, state: Option<Reading>): Outcome {
    if challenge != Some(Active) || state.None? then NOTHING
    else if !state.value.hasMaxDd then NOTHING
    else if state.value.breached then
      var reason := state.value.breachReason;
      Outcome(Breached, reason, if reason == Some(DailyDd) then state.value.dailyDay else None)
    else if state.value.targetReached && state.value.daysMet then Outcome(Passed, None, None)
    else NOTHING
  }

  function OrEmpty(day: Option<string>): string {
    if day.Some? then day.value else ""
  }

  predicate IsSuppressed(suppressed: Option<Outcome>, outcome: Outcome) {
    && suppressed.Some?
    && suppressed.value.status == outcome.status
    && suppressed.value.reason == outcome.reason
    && (suppressed.value.day.None? || suppressed.value.day.value == OrEmpty(outcome.day))
  }

  predicate RecursOnItsOwn(outcome: Outcome) {
    outcome.status == Breached && outcome.reason == Some(DailyDd)
  }

  /** A breach outranks a pass, a pass needs target and days, and only a daily-loss breach has a day. */
  lemma VerdictRules(challenge: Option<Status>, state: Option<Reading>)
    ensures var v := Resolve(challenge, state);
      && (v.status != Active ==> challenge == Some(Active) && state.Some? && state.value.hasMaxDd)
      && (v.status == Breached <==>
            challenge == Some(Active) && state.Some? && state.value.hasMaxDd && state.value.breached)
      && (v.status == Passed ==> state.value.targetReached && state.value.daysMet && !state.value.breached)
      && (v.day.Some? ==> RecursOnItsOwn(v))
      && (v.status != Breached ==> v.reason.None?)
  {
  }
}
