/** The status and freshness evaluator: a status other than `good` is a
    failure carrying that status, and a good response must fall inside the
    window [thisUpdate - nudge, nextUpdate + nudge]. */
module StatusFreshness {
  import opened OcspTypes

  /** The clock-skew tolerance used when the caller gives none, in milliseconds. */
  const DefaultNudge: int := 60000

  /** `options.nudge || 60000`: an absent nudge and a nudge of 0 are both
      falsy and give the default, so the tolerance is never zero. */
  function EffectiveNudge(nudge: Option<int>): (r: int)
    ensures r != 0
    ensures nudge.Some? && nudge.value != 0 ==> r == nudge.value
    ensures nudge.None? || nudge.value == 0 ==> r == DefaultNudge
  {
    match nudge
    case None => DefaultNudge
    case Some(n) => if n == 0 then DefaultNudge else n
  }

  /** The rejection test as the code writes it,
      `thisUpdate - nudge > now || nextUpdate + nudge < now`, where an
      absent nextUpdate makes the second comparison false. The contract
      states its meaning: `now` lies outside the inclusive window. */
  function IsExpired(thisUpdate: int, nextUpdate: Option<int>, nudge: int, now: int): (r: bool)
    ensures !r <==> thisUpdate - nudge <= now && (nextUpdate.None? || now <= nextUpdate.value + nudge)
  {
    thisUpdate - nudge > now || (nextUpdate.Some? && nextUpdate.value + nudge < now)
  }

  /** The status, then the freshness of one entry. */
  function EvaluateEntry(entry: SingleResponse, nudge: int, now: int): (r: Outcome)
    ensures r.Success? <==> entry.certStatus == Good && !IsExpired(entry.thisUpdate, entry.nextUpdate, nudge, now)
    ensures r.Success? ==> r.entry == entry
    ensures entry.certStatus != Good ==> r == BadStatus(entry.certStatus)
    ensures entry.certStatus == Good ==> r == Expired || r == Success(entry)
  {
    if entry.certStatus != Good then BadStatus(entry.certStatus)
    else if IsExpired(entry.thisUpdate, entry.nextUpdate, nudge, now) then Expired
    else Success(entry)
  }

  /** Both ends of the window are inclusive: a clock exactly `nudge` past
      nextUpdate is accepted, one millisecond later is not. */
  lemma WindowBoundsInclusive(thisUpdate: int, nextUpdate: int, nudge: int, now: int)
    requires thisUpdate - nudge <= now
    ensures !IsExpired(thisUpdate, Some(nextUpdate), nudge, now) <==> nextUpdate >= now - nudge
    ensures !IsExpired(thisUpdate, Some(now - nudge), nudge, now)
    ensures IsExpired(thisUpdate, Some(now - nudge - 1), nudge, now)
  {
  }

  /** Without nextUpdate there is no upper bound: once thisUpdate - nudge has
      passed, the response is fresh at every later time. */
  lemma NoNextUpdateNoUpperBound(thisUpdate: int, nudge: int, now: int, later: int)
    requires !IsExpired(thisUpdate, None, nudge, now)
    requires now <= later
    ensures !IsExpired(thisUpdate, None, nudge, later)
  {
  }
}
