/** The channel-state repair worker of core/offer_publication_worker.py: retry metadata, back-off and the cycle.
Instants and durations are real seconds. */
module PublicationRetry {
  import opened Wrappers

  // ----- the delay

  function Min(a: real, b: real): real { if a < b then a else b }

  function Max(a: real, b: real): real { if a < b then b else a }

  /** `_bounded_setting_seconds` of a numeric setting. */
  function Bounded(value: real, minimum: real, maximum: real): real {
    Max(minimum, Min(maximum, value))
  }

  datatype Settings = Settings(retryBase: real, retryMax: real, cooldown: real, cooldownMax: real)

  function Base(s: Settings): real {
    Bounded(s.retryBase, 1.0, 60.0)
  }

  function Ceiling(s: Settings): real {
    Bounded(s.retryMax, Base(s), 3600.0)
  }

  function PowerOfTwo(e: nat): real {
    if e == 0 then 1.0 else 2.0 * PowerOfTwo(e - 1)
  }

  function Exponent(attempts: int): nat {
    var e := (if attempts == 0 then 1 else attempts) - 1;
    if e < 0 then 0 else if e > 10 then 10 else e
  }

  function Backoff(base: real, attempts: int): real {
    base * PowerOfTwo(Exponent(attempts))
  }

  /** The back-off below the ceiling, raised to what the provider asks for. */
  function Combine(ceiling: real, backoff: real, retryAfter: Option<int>): real {
    var delay := Min(ceiling, backoff);
    if retryAfter.None? then delay else Max(delay, Min(ceiling, Max(1.0, retryAfter.value as real)))
  }

  /** `_channel_state_retry_delay_seconds`. */
  function RetryDelay(s: Settings, attempts: int, retryAfter: Option<int>): real {
    Combine(Ceiling(s), Backoff(Base(s), attempts), retryAfter)
  }

  lemma {:induction false} PowerGrows(a: nat, b: nat)
    requires a <= b
    ensures 1.0 <= PowerOfTwo(a) <= PowerOfTwo(b)
  {
    if b > a {
      PowerGrows(a, b - 1);
    } else if a > 0 {
      PowerGrows(a - 1, a - 1);
    }
  }

  lemma ScaleGrows(x: real, y: real, base: real)
    requires 1.0 <= x <= y && base >= 1.0
    ensures base <= base * x <= base * y
  {
  }

  lemma BackoffGrows(base: real, attempts: int, more: int)
    requires 1.0 <= base && attempts <= more
    ensures base <= Backoff(base, attempts)
    ensures 0 <= attempts ==> Backoff(base, attempts) <= Backoff(base, more)
  {
    PowerGrows(0, Exponent(attempts));
    ScaleGrows(1.0, PowerOfTwo(Exponent(attempts)), base);
    if 0 <= attempts {
      PowerGrows(Exponent(attempts), Exponent(more));
      ScaleGrows(PowerOfTwo(Exponent(attempts)), PowerOfTwo(Exponent(more)), base);
    }
  }

  /** The delay lies between the base and the ceiling and does not shrink as attempts go on. */
  lemma DelayBoundedAndMonotone(s: Settings, attempts: int, more: int, retryAfter: Option<int>)
    requires attempts <= more
    ensures Base(s) <= RetryDelay(s, attempts, retryAfter) <= Ceiling(s)
    ensures 0 <= attempts ==> RetryDelay(s, attempts, retryAfter) <= RetryDelay(s, more, retryAfter)
  {
    BackoffGrows(Base(s), attempts, more);
    CombineGrows(Base(s), Ceiling(s), Backoff(Base(s), attempts), Backoff(Base(s), more), retryAfter);
  }

  lemma CombineGrows(base: real, ceiling: real, x: real, y: real, retryAfter: Option<int>)
    requires base <= ceiling && base <= x
    ensures base <= Combine(ceiling, x, retryAfter) <= ceiling
    ensures x <= y ==> Combine(ceiling, x, retryAfter) <= Combine(ceiling, y, retryAfter)
  {
  }

  /** The delay starts at the base. */
  lemma FirstDelay(s: Settings, attempts: int)
    requires attempts <= 1
    ensures RetryDelay(s, attempts, None) == Base(s)
  {
    assert Exponent(attempts) == 0 && PowerOfTwo(0) == 1.0;
    assert Base(s) * 1.0 == Base(s);
  }

  lemma BackoffDoubles(base: real, attempts: int)
    requires 1 <= attempts <= 10
    ensures Backoff(base, attempts + 1) == 2.0 * Backoff(base, attempts)
  {
    var power := PowerOfTwo(attempts - 1);
    assert PowerOfTwo(attempts) == 2.0 * power;
    Doubled(base, power);
  }

  lemma Doubled(base: real, power: real)
    ensures base * (2.0 * power) == 2.0 * (base * power)
  {
  }

  /** It doubles with every attempt up to the eleventh, below the ceiling, and stays there. */
  lemma DelayDoubles(s: Settings, attempts: int)
    requires 1 <= attempts
    ensures attempts <= 10 ==> RetryDelay(s, attempts + 1, None) == Min(Ceiling(s), 2.0 * RetryDelay(s, attempts, None))
    ensures attempts >= 11 ==> RetryDelay(s, attempts, None) == RetryDelay(s, 11, None)
  {
    if attempts <= 10 {
      BackoffDoubles(Base(s), attempts);
      BackoffGrows(Base(s), attempts, attempts);
      DoublingBelow(Ceiling(s), Backoff(Base(s), attempts));
    } else {
      assert Exponent(attempts) == Exponent(11);
    }
  }

  lemma DoublingBelow(ceiling: real, x: real)
    requires 0.0 <= x && 0.0 <= ceiling
    ensures Min(ceiling, 2.0 * x) == Min(ceiling, 2.0 * Min(ceiling, x))
  {
  }

  /** A provider that asks for more gets it, below the ceiling; asking for less changes nothing. */
  lemma ProviderDelay(s: Settings, attempts: int, retryAfter: int)
    ensures RetryDelay(s, attempts, Some(retryAfter)) == Max(RetryDelay(s, attempts, None), Min(Ceiling(s), Max(1.0, retryAfter as real)))
  {
  }

  /** The settings are used as they are within their bounds, and the nearest bound outside them. */
  lemma SettingsBounded(s: Settings)
    ensures 1.0 <= Base(s) <= 60.0 && (1.0 <= s.retryBase <= 60.0 ==> Base(s) == s.retryBase)
    ensures s.retryBase < 1.0 ==> Base(s) == 1.0
    ensures s.retryBase > 60.0 ==> Base(s) == 60.0
    ensures Base(s) <= Ceiling(s) <= 3600.0 && (Base(s) <= s.retryMax <= 3600.0 ==> Ceiling(s) == s.retryMax)
    ensures s.retryMax < Base(s) ==> Ceiling(s) == Base(s)
    ensures s.retryMax > 3600.0 ==> Ceiling(s) == 3600.0
  {
  }

  /** The cooldown is what the provider asks for between 1 s and the bounded maximum; without a request it is the setting. */
  lemma CooldownExactly(s: Settings, retryAfter: int)
    ensures 1.0 <= s.cooldown <= 120.0 ==> Cooldown(s, None) == s.cooldown
    ensures retryAfter <= 1 ==> Cooldown(s, Some(retryAfter)) == 1.0
    ensures 1 <= retryAfter && retryAfter as real <= s.cooldownMax && retryAfter <= 300 ==> Cooldown(s, Some(retryAfter)) == retryAfter as real
    ensures Cooldown(s, None) <= s.cooldownMax <= 300.0 && retryAfter as real >= s.cooldownMax ==> Cooldown(s, Some(retryAfter)) == s.cooldownMax
  {
  }

  /** `_rate_limit_cooldown_seconds`. */
  function Cooldown(s: Settings, retryAfter: Option<int>): (c: real)
    ensures 1.0 <= c <= 300.0
  {
    var default := Bounded(s.cooldown, 1.0, 120.0);
    var ceiling := Bounded(s.cooldownMax, default, 300.0);
    if retryAfter.None? then default else Max(1.0, Min(ceiling, retryAfter.value as real))
  }

  // ----- retry metadata

  /** The three retry keys of `state_metadata`; None is an absent key. */
  datatype Metadata = Metadata(attempts: Option<int>, version: Option<int>, retryAt: Option<real>)

  const NO_RETRY := Metadata(None, None, None)

  function StoredAttempts(m: Metadata): nat {
    if m.attempts.Some? && m.attempts.value > 0 then m.attempts.value else 0
  }

  /** `_set_channel_state_attempt_count`. */
  function SetAttempts(m: Metadata, count: int, version: Option<int>, retryAt: Option<real>): Metadata {
    if count > 0
    then Metadata(Some(count), if version.Some? then version else m.version, if retryAt.Some? then retryAt else m.retryAt)
    else NO_RETRY
  }

  /** `_schedule_channel_state_retry`. */
  function Schedule(s: Settings, m: Metadata, offerVersion: Option<int>, retryAfter: Option<int>, now: real): Metadata {
    var count := (if m.version == offerVersion then StoredAttempts(m) else 0) + 1;
    SetAttempts(m, count, offerVersion, Some(now + RetryDelay(s, count, retryAfter)))
  }

  /** The metadata after `_mark_channel_state_applied`. */
  function Applied(m: Metadata): Metadata {
    SetAttempts(m, 0, None, None)
  }

  /** What happens to one publication state over time. */
  datatype Event = Failure(version: Option<int>, retryAfter: Option<int>, now: real) | Success

  function After(s: Settings, events: seq<Event>): Metadata {
    if events == [] then NO_RETRY
    else
      var m := After(s, events[..|events| - 1]);
      match events[|events| - 1]
      case Success => Applied(m)
      case Failure(version, retryAfter, now) => Schedule(s, m, version, retryAfter, now)
  }

  /** The failures on a version, null or not, at the end of the history. */
  function Streak(events: seq<Event>, version: Option<int>): nat {
    if events == [] then 0
    else
      match events[|events| - 1]
      case Success => 0
      case Failure(v, _, _) => if v == version then Streak(events[..|events| - 1], version) + 1 else 0
  }

  /** The history before that streak. */
  function BeforeStreak(events: seq<Event>, version: Option<int>): seq<Event> {
    if events != [] && events[|events| - 1].Failure? && events[|events| - 1].version == version
    then BeforeStreak(events[..|events| - 1], version)
    else events
  }

  /** The last version that is not null since the last success. */
  function VersionSince(events: seq<Event>): Option<int> {
    if events == [] then None
    else
      match events[|events| - 1]
      case Success => None
      case Failure(v, _, _) => if v.Some? then v else VersionSince(events[..|events| - 1])
  }

  /** What misleads the count, as the history shows it: failures on a version that follow a null failure while that
  same version was the last known one; or null failures that repeat while any version is known. */
  predicate Misled(events: seq<Event>, version: Option<int>) {
    if version.None? then VersionSince(events).Some? && Streak(events, None) >= 2
    else
      var rest := BeforeStreak(events, version);
      rest != [] && rest[|rest| - 1].Failure? && rest[|rest| - 1].version.None? && VersionSince(rest) == version
  }

  /** The stored version is the last known one. */
  lemma {:induction false} StoredVersion(s: Settings, events: seq<Event>)
    ensures After(s, events).version == VersionSince(events)
    ensures StoredAttempts(After(s, events)) >= 1 <==> events != [] && events[|events| - 1].Failure?
    ensures events == [] || events[|events| - 1].Success? ==> After(s, events) == NO_RETRY
  {
    if events != [] { StoredVersion(s, events[..|events| - 1]); }
  }

  /** A null failure after a known version always stores 1. */
  lemma NullFailureStoresOne(s: Settings, events: seq<Event>)
    requires events != [] && events[|events| - 1].Failure? && events[|events| - 1].version.None? && VersionSince(events).Some?
    ensures StoredAttempts(After(s, events)) == 1
  {
    StoredVersion(s, events[..|events| - 1]);
  }

  /** While no version is known the null failures are counted right. */
  lemma {:induction false} NullStreakCounted(s: Settings, events: seq<Event>)
    requires VersionSince(events).None?
    ensures StoredAttempts(After(s, events)) == Streak(events, None)
  {
    if events != [] {
      var front := events[..|events| - 1];
      StoredVersion(s, front);
      if events[|events| - 1].Failure? { NullStreakCounted(s, front); }
    }
  }

  /** On a version the count is the streak, and one more when it is misled. */
  lemma {:induction false} VersionStreakCounted(s: Settings, events: seq<Event>, version: Option<int>)
    requires events != [] && events[|events| - 1].Failure? && events[|events| - 1].version == version && version.Some?
    ensures StoredAttempts(After(s, events)) == Streak(events, version) + if Misled(events, version) then 1 else 0
  {
    var front := events[..|events| - 1];
    StoredVersion(s, front);
    assert BeforeStreak(events, version) == BeforeStreak(front, version);
    if front != [] && front[|front| - 1].Failure? {
      if front[|front| - 1].version == version {
        VersionStreakCounted(s, front, version);
      } else if front[|front| - 1].version.None? && VersionSince(front) == version {
        NullFailureStoresOne(s, front);
      }
    }
  }

  /** For every history that ends in a failure, the stored count is the number of consecutive failures on the current
  offer version since the last applied mark exactly when the history is not misled. The retry is due after the
  delay of the stored count. */
  lemma CountExactlyWhen(s: Settings, events: seq<Event>)
    requires events != [] && events[|events| - 1].Failure?
    ensures var m, last := After(s, events), events[|events| - 1];
            && (StoredAttempts(m) == Streak(events, last.version) <==> !Misled(events, last.version))
            && m.retryAt == Some(last.now + RetryDelay(s, StoredAttempts(m), last.retryAfter))
  {
    var last := events[|events| - 1];
    if last.version.Some? {
      VersionStreakCounted(s, events, last.version);
    } else if VersionSince(events).Some? {
      NullFailureStoresOne(s, events);
    } else {
      NullStreakCounted(s, events);
    }
  }

  ghost predicate Versioned(events: seq<Event>) {
    forall e | e in events && e.Failure? :: e.version.Some?
  }

  lemma {:induction false} BeforeStreakIsPrefix(events: seq<Event>, version: Option<int>)
    ensures BeforeStreak(events, version) <= events
  {
    if BeforeStreak(events, version) != events { BeforeStreakIsPrefix(events[..|events| - 1], version); }
  }

  /** With versions that are never null no history is misled: the stored count is the streak. */
  lemma AttemptsAreTheStreak(s: Settings, events: seq<Event>)
    requires Versioned(events) && events != []
    ensures var m, last := After(s, events), events[|events| - 1];
            && (last.Success? ==> m == NO_RETRY)
            && (last.Failure? ==>
                  && m.version == last.version && StoredAttempts(m) == Streak(events, last.version) && StoredAttempts(m) >= 1
                  && m.retryAt == Some(last.now + RetryDelay(s, Streak(events, last.version), last.retryAfter)))
  {
    StoredVersion(s, events);
    var last := events[|events| - 1];
    assert last in events;
    if last.Failure? {
      CountExactlyWhen(s, events);
      BeforeStreakIsPrefix(events, last.version);
      var rest := BeforeStreak(events, last.version);
      if rest != [] {
        assert rest[|rest| - 1] == events[|rest| - 1];
        assert rest[|rest| - 1] in events;
      }
    }
  }

  /** Both ways to mislead the count occur: a null failure between two failures on a version is counted with the
  second, and repeated null failures after a failure on a version are counted as one. */
  lemma NullVersionMiscounts(s: Settings, v: int, now: real)
    ensures var events := [Failure(Some(v), None, now), Failure(None, None, now), Failure(Some(v), None, now)];
            Misled(events, Some(v)) && StoredAttempts(After(s, events)) == 2 && Streak(events, Some(v)) == 1
    ensures var events := [Failure(Some(v), None, now), Failure(None, None, now), Failure(None, None, now)];
            Misled(events, None) && StoredAttempts(After(s, events)) == 1 && Streak(events, None) == 2
  {
    var a, n := Failure(Some(v), None, now), Failure(None, None, now);
    assert [a, n][..1] == [a] && [a][..0] == [];
    assert VersionSince([a, n]) == Some(v) && Streak([a, n], Some(v)) == 0 && Streak([a, n], None) == 1;
    assert [a, n, a][..2] == [a, n] && [a, n, n][..2] == [a, n];
    assert BeforeStreak([a, n, a], Some(v)) == [a, n];
    VersionStreakCounted(s, [a, n, a], Some(v));
    NullFailureStoresOne(s, [a, n, n]);
  }

  // ----- due candidates

  /** What `_channel_state_candidate_still_due` reads; `state` is None when there is no publication state. */
  datatype DueState = DueState(metadata: Metadata, offerVersion: Option<int>, messageId: Option<int>, lastAttempt: Option<real>)
  datatype DueOffer = DueOffer(eligible: bool, archived: bool, channelMessageId: Option<int>, version: Option<int>, updatedAt: Option<real>)

  predicate StillDue(state: Option<DueState>, offer: DueOffer, now: real) {
    if state.None? then true
    else if !offer.eligible || offer.channelMessageId.None? || offer.channelMessageId == Some(0) || offer.archived then false
    else
      var st := state.value;
      var changed := st.lastAttempt.Some? && offer.updatedAt.Some? && offer.updatedAt.value > st.lastAttempt.value;
      if st.metadata.retryAt.Some? && st.metadata.retryAt.value > now && !changed then false
      else st.offerVersion != offer.version || st.messageId != offer.channelMessageId || st.metadata.retryAt.Some?
  }

  /** A scheduled retry is left alone until its delay is over, unless the offer changed after the attempt; from
  then on it is due. */
  lemma RetryWaitsItsDelay(s: Settings, m: Metadata, offer: DueOffer, retryAfter: Option<int>, attempt: real, messageId: Option<int>, stored: Option<int>, now: real)
    requires offer.eligible && !offer.archived && offer.channelMessageId.Some? && offer.channelMessageId != Some(0)
    ensures var st := DueState(Schedule(s, m, offer.version, retryAfter, attempt), stored, messageId, Some(attempt));
            && Base(s) <= st.metadata.retryAt.value - attempt <= Ceiling(s)
            && (StillDue(Some(st), offer, now) <==>
                  now >= st.metadata.retryAt.value || (offer.updatedAt.Some? && offer.updatedAt.value > attempt))
  {
    var count := (if m.version == offer.version then StoredAttempts(m) else 0) + 1;
    DelayBoundedAndMonotone(s, count, count, retryAfter);
  }

  /** Without a retry in waiting, a state is due exactly when it has drifted from its offer; an offer that is not eligible,
  not published or archived is never due. */
  lemma DriftIsDue(st: DueState, offer: DueOffer, now: real)
    ensures !offer.eligible || offer.archived || offer.channelMessageId.None? || offer.channelMessageId == Some(0) ==> !StillDue(Some(st), offer, now)
    ensures offer.eligible && !offer.archived && offer.channelMessageId.Some? && offer.channelMessageId != Some(0) && st.metadata.retryAt.None? ==>
            (StillDue(Some(st), offer, now) <==> st.offerVersion != offer.version || st.messageId != offer.channelMessageId)
    ensures StillDue(None, offer, now)
  {
  }

  // ----- the cycle

  datatype ResponseClass = Class429 | Class400 | ClassOther

  /** A candidate with the answers it meets: lock, due check, provider result. */
  datatype Candidate = Candidate(
    locked: bool, due: bool, terminal: bool, version: Option<int>, ok: bool, class_: ResponseClass,
    retryAfter: Option<int>, now: real, metadata: Metadata)

  datatype Report = Report(
    processed: nat, applied: nat, failed: nat, skippedRecent: nat, skippedLocked: nat,
    rateLimited: nat, badRequest: nat, retryable: nat, remembered: nat)

  const EMPTY_REPORT := Report(0, 0, 0, 0, 0, 0, 0, 0, 0)

  predicate Processed(c: Candidate) {
    c.locked && c.due
  }

  /** The candidate after which the cycle stops. */
  predicate Stops(c: Candidate) {
    Processed(c) && c.class_ == Class429
  }

  function Add(r: Report, c: Candidate): Report {
    if !c.locked then r.(skippedLocked := r.skippedLocked + 1)
    else if !c.due then r.(skippedRecent := r.skippedRecent + 1)
    else
      var r' := r.(processed := r.processed + 1);
      if c.ok then r'.(applied := r.applied + 1)
      else
        var r'' := r'.(failed := r.failed + 1);
        match c.class_
        case Class429 => r''.(rateLimited := r.rateLimited + 1, retryable := r.retryable + 1)
        case Class400 =>
          if c.terminal then r''.(badRequest := r.badRequest + 1, remembered := r.remembered + 1)
          else r''.(badRequest := r.badRequest + 1, retryable := r.retryable + 1)
        case ClassOther => r''.(retryable := r.retryable + 1)
  }

  function Tally(cs: seq<Candidate>): Report {
    if cs == [] then EMPTY_REPORT else Add(Tally(cs[..|cs| - 1]), cs[|cs| - 1])
  }

  /** The retry metadata that a visit leaves. */
  function Visited(s: Settings, c: Candidate): Metadata {
    if !Processed(c) then c.metadata
    else if c.ok || (c.class_ == Class400 && c.terminal) then Applied(c.metadata)
    else Schedule(s, c.metadata, c.version, c.retryAfter, c.now)
  }

  predicate Balanced(r: Report, visited: nat) {
    && r.processed == r.applied + r.failed
    && r.failed == r.retryable + r.remembered
    && r.processed + r.skippedRecent + r.skippedLocked == visited
    && r.rateLimited + r.badRequest <= r.failed && r.remembered <= r.badRequest
  }

  lemma AddBalances(r: Report, c: Candidate, visited: nat)
    requires Balanced(r, visited)
    ensures Balanced(Add(r, c), visited + 1)
  {
  }

  /** Every report balances. */
  lemma {:induction false} TallyBalances(cs: seq<Candidate>)
    ensures Balanced(Tally(cs), |cs|)
  {
    if cs != [] {
      TallyBalances(cs[..|cs| - 1]);
      AddBalances(Tally(cs[..|cs| - 1]), cs[|cs| - 1], |cs| - 1);
    }
  }

  function CountIf(cs: seq<Candidate>, p: Candidate -> bool): nat {
    if cs == [] then 0 else CountIf(cs[..|cs| - 1], p) + if p(cs[|cs| - 1]) then 1 else 0
  }

  predicate IsSkippedLocked(c: Candidate) { !c.locked }

  predicate IsSkippedRecent(c: Candidate) { c.locked && !c.due }

  predicate IsApplied(c: Candidate) { c.locked && c.due && c.ok }

  predicate IsRateLimited(c: Candidate) { c.locked && c.due && !c.ok && c.class_ == Class429 }

  predicate IsBadRequest(c: Candidate) { c.locked && c.due && !c.ok && c.class_ == Class400 }

  predicate IsRemembered(c: Candidate) { c.locked && c.due && !c.ok && c.class_ == Class400 && c.terminal }

  predicate IsRetried(c: Candidate) { c.locked && c.due && !c.ok && !(c.class_ == Class400 && c.terminal) }

  /** Every counter of a report counts the candidates of its kind. */
  lemma {:induction false} TallyCounts(cs: seq<Candidate>)
    ensures var r := Tally(cs);
            && r.skippedLocked == CountIf(cs, IsSkippedLocked) && r.skippedRecent == CountIf(cs, IsSkippedRecent)
            && r.applied == CountIf(cs, IsApplied) && r.rateLimited == CountIf(cs, IsRateLimited)
            && r.badRequest == CountIf(cs, IsBadRequest) && r.remembered == CountIf(cs, IsRemembered)
            && r.retryable == CountIf(cs, IsRetried)
  {
    if cs != [] { TallyCounts(cs[..|cs| - 1]); }
  }

  /** A visit clears the retry of a candidate that succeeded or was remembered, schedules the next one of a candidate that
  failed, and leaves the others as they are. */
  lemma VisitedExactly(s: Settings, c: Candidate)
    ensures !c.locked || !c.due ==> Visited(s, c) == c.metadata
    ensures IsApplied(c) || IsRemembered(c) ==> Visited(s, c) == NO_RETRY
    ensures IsRetried(c) ==>
            var n := 1 + if c.metadata.version == c.version then StoredAttempts(c.metadata) else 0;
            Visited(s, c).attempts == Some(n) && Visited(s, c).retryAt == Some(c.now + RetryDelay(s, n, c.retryAfter))
  {
  }

  /** The body of the candidate loop of `run_offer_channel_state_cycle`. */
  method Visit(s: Settings, before: Report, c: Candidate) returns (after: Report, metadata: Metadata, cooldown: real)
    ensures after == Add(before, c) && metadata == Visited(s, c)
    ensures cooldown == if Stops(c) && !c.ok then Cooldown(s, c.retryAfter) else 0.0
  {
    after, metadata, cooldown := before, c.metadata, 0.0;
    if !c.locked {
      after := after.(skippedLocked := after.skippedLocked + 1);
      return;
    }
    if !c.due {
      after := after.(skippedRecent := after.skippedRecent + 1);
      return;
    }
    after := after.(processed := after.processed + 1);
    if c.ok {
      after := after.(applied := after.applied + 1);
      metadata := Applied(c.metadata);
    } else if c.class_ == Class429 {
      after := after.(failed := after.failed + 1, rateLimited := after.rateLimited + 1, retryable := after.retryable + 1);
      metadata := Schedule(s, c.metadata, c.version, c.retryAfter, c.now);
      cooldown := Cooldown(s, c.retryAfter);
    } else if c.class_ == Class400 {
      after := after.(failed := after.failed + 1, badRequest := after.badRequest + 1);
      if c.terminal {
        after := after.(remembered := after.remembered + 1);
        metadata := Applied(c.metadata);
      } else {
        after := after.(retryable := after.retryable + 1);
        metadata := Schedule(s, c.metadata, c.version, c.retryAfter, c.now);
      }
    } else {
      after := after.(failed := after.failed + 1, retryable := after.retryable + 1);
      metadata := Schedule(s, c.metadata, c.version, c.retryAfter, c.now);
    }
  }

  /** `run_offer_channel_state_cycle`: visits candidates in order up to the first processed one answered with
  429, reports exactly those, and leaves the states behind it alone. */
  method RunCycle(s: Settings, candidates: seq<Candidate>) returns (report: Report, metadata: seq<Metadata>, cooldown: real, visited: nat)
    ensures visited <= |candidates| && report == Tally(candidates[..visited]) && Balanced(report, visited)
    ensures forall i | 0 <= i < visited - 1 :: !(candidates[i].locked && candidates[i].due && candidates[i].class_ == Class429)
    ensures visited < |candidates| ==>
              visited > 0 && candidates[visited - 1].locked && candidates[visited - 1].due && candidates[visited - 1].class_ == Class429
    ensures |metadata| == visited && forall i | 0 <= i < visited :: metadata[i] == Visited(s, candidates[i])
    ensures 0.0 <= cooldown <= 300.0 && (visited > 0 && Stops(candidates[visited - 1]) && !candidates[visited - 1].ok ==> cooldown >= 1.0)
  {
    report, metadata, cooldown, visited := EMPTY_REPORT, [], 0.0, 0;
    var stopped := false;
    while visited < |candidates| && !stopped
      invariant visited <= |candidates| && |metadata| == visited
      invariant report == Tally(candidates[..visited])
      invariant forall i | 0 <= i < visited - 1 :: !Stops(candidates[i])
      invariant stopped <==> visited > 0 && Stops(candidates[visited - 1])
      invariant forall i | 0 <= i < visited :: metadata[i] == Visited(s, candidates[i])
      invariant 0.0 <= cooldown <= 300.0 && (stopped && !candidates[visited - 1].ok ==> cooldown >= 1.0)
      decreases |candidates| - visited
    {
      var c := candidates[visited];
      assert candidates[..visited + 1][..visited] == candidates[..visited];
      var m, pause;
      report, m, pause := Visit(s, report, c);
      metadata, cooldown := metadata + [m], Max(cooldown, pause);
      stopped := Stops(c);
      visited := visited + 1;
    }
    TallyBalances(candidates[..visited]);
  }
}
