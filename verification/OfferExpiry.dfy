/** The expiry worker of core/offer_expiry.py: the stale scan, the deadline-aware sleep, and the bounded map
of remote presentations. */
module OfferExpiry {
  import opened Wrappers
  import opened OfferLifecycle

  const CHECK_INTERVAL: int := 2_000_000
  const MIN_DEADLINE_SLEEP: int := 100_000

  // ----- the scan

  /** What the scan is for: active offers of this server that the projection marks as terminally due. */
  predicate DueHere(o: Offer, server: Server, setting: int, now: Instant, held: set<int>) {
    o.isActive && o.home == Some(server) && Project(o, setting, now, o.id in held).terminalExpiryDue
  }

  function Selected(offers: seq<Offer>, server: Server, setting: int, now: Instant, held: set<int>): seq<Offer> {
    if offers == [] then []
    else
      var front, last := Selected(offers[..|offers| - 1], server, setting, now, held), offers[|offers| - 1];
      if DueHere(last, server, setting, now, held) then front + [last] else front
  }

  /** The WHERE clause: the normal lifetime alone is over. */
  predicate Prefiltered(o: Offer, server: Server, setting: int, now: Instant) {
    o.isActive && o.home == Some(server) && o.createdAt.Some? && o.createdAt.value <= now - setting * MINUTE
  }

  function Candidates(offers: seq<Offer>, server: Server, setting: int, now: Instant): seq<Offer> {
    if offers == [] then []
    else
      var front, last := Candidates(offers[..|offers| - 1], server, setting, now), offers[|offers| - 1];
      if Prefiltered(last, server, setting, now) then front + [last] else front
  }

  lemma {:induction false} CandidatesPrefiltered(offers: seq<Offer>, server: Server, setting: int, now: Instant, o: Offer)
    requires o in Candidates(offers, server, setting, now)
    ensures Prefiltered(o, server, setting, now)
  {
    var last := offers[|offers| - 1];
    if !(Prefiltered(last, server, setting, now) && o == last) {
      CandidatesPrefiltered(offers[..|offers| - 1], server, setting, now, o);
    }
  }

  /** The prefilter loses nothing that is due. */
  lemma DueIsPrefiltered(o: Offer, server: Server, setting: int, now: Instant, held: set<int>)
    requires DueHere(o, server, setting, now, held)
    ensures Prefiltered(o, server, setting, now)
  {
  }

  lemma {:induction false} SelectedOfCandidates(offers: seq<Offer>, server: Server, setting: int, now: Instant, held: set<int>)
    ensures Selected(Candidates(offers, server, setting, now), server, setting, now, held) == Selected(offers, server, setting, now, held)
  {
    if offers != [] {
      var last := offers[|offers| - 1];
      var front := Candidates(offers[..|offers| - 1], server, setting, now);
      SelectedOfCandidates(offers[..|offers| - 1], server, setting, now, held);
      if Prefiltered(last, server, setting, now) {
        assert (front + [last])[..|front|] == front;
      } else if DueHere(last, server, setting, now, held) {
        DueIsPrefiltered(last, server, setting, now, held);
        assert false;
      }
    }
  }

  lemma {:induction false} SelectedMembers(offers: seq<Offer>, server: Server, setting: int, now: Instant, held: set<int>, o: Offer)
    ensures o in Selected(offers, server, setting, now, held) <==> o in offers && DueHere(o, server, setting, now, held)
  {
    if offers != [] {
      assert offers == offers[..|offers| - 1] + [offers[|offers| - 1]];
      SelectedMembers(offers[..|offers| - 1], server, setting, now, held, o);
    }
  }

  /** `_load_local_stale_active_offers`: exactly the active offers of this server that are terminally due, in
  order; `held` are the offers with an open final-tail request. */
  method LoadLocalStaleActiveOffers(offers: seq<Offer>, server: Server, setting: int, now: Instant, held: set<int>)
    returns (ready: seq<Offer>)
    ensures ready == Selected(offers, server, setting, now, held)
    ensures forall o :: o in ready <==> o in offers && DueHere(o, server, setting, now, held)
  {
    var candidates := Candidates(offers, server, setting, now);
    SelectedOfCandidates(offers, server, setting, now, held);
    forall o ensures o in Selected(offers, server, setting, now, held) <==> o in offers && DueHere(o, server, setting, now, held) {
      SelectedMembers(offers, server, setting, now, held, o);
    }
    ready := [];
    for i := 0 to |candidates|
      invariant ready == Selected(candidates[..i], server, setting, now, held)
    {
      CandidatesPrefiltered(offers, server, setting, now, candidates[i]);
      assert candidates[..i + 1][..i] == candidates[..i];
      var projection := Project(candidates[i], setting, now, candidates[i].id in held);
      if projection.terminalExpiryDue {
        ready := ready + [candidates[i]];
      }
    }
    assert candidates[..|candidates|] == candidates;
  }

  // ----- the sleep

  /** The final deadline as the sleep computes it; the snapshot is not clamped from above here. */
  function SleepDeadline(o: Offer, setting: int): Option<Instant> {
    var d := Deadlines(o.createdAt, setting, if o.overtime.None? then 0 else o.overtime.value);
    if d.None? then None else Some(d.value.1)
  }

  /** It is the deadline of the projection exactly for snapshots of at most ten minutes. */
  lemma SleepDeadlineExactlyWhen(o: Offer, setting: int)
    requires Finite(o, setting)
    ensures SleepDeadline(o, setting) == Some(FinalEnd(o, setting)) <==> (o.overtime.Some? ==> o.overtime.value <= 10)
  {
  }

  predicate IsSoonest(offers: seq<Offer>, setting: int, d: Option<Instant>) {
    && (d.None? ==> forall o | o in offers :: SleepDeadline(o, setting).None?)
    && (d.Some? ==> exists o | o in offers :: SleepDeadline(o, setting) == d)
    && (d.Some? ==> forall o | o in offers && SleepDeadline(o, setting).Some? :: d.value <= SleepDeadline(o, setting).value)
  }

  function SleepFor(soonest: Option<Instant>, now: Instant): int {
    if soonest.None? then CHECK_INTERVAL
    else if soonest.value - now <= MIN_DEADLINE_SLEEP then MIN_DEADLINE_SLEEP
    else if soonest.value - now < CHECK_INTERVAL then soonest.value - now
    else CHECK_INTERVAL
  }

  /** `get_next_expiry_delay_seconds`, over the active offers of this server. The sleep is between 0.1 s and
  2 s; no final deadline that was still ahead is overslept by more than 0.1 s; and the worker wakes early only
  for a deadline that is reached by then. */
  method NextExpiryDelay(offers: seq<Offer>, setting: int, now: Instant) returns (delay: int)
    ensures MIN_DEADLINE_SLEEP <= delay <= CHECK_INTERVAL
    ensures exists soonest :: IsSoonest(offers, setting, soonest) && delay == SleepFor(soonest, now)
    ensures forall o | o in offers && SleepDeadline(o, setting).Some? && SleepDeadline(o, setting).value >= now ::
              now + delay <= SleepDeadline(o, setting).value + MIN_DEADLINE_SLEEP
    ensures delay > MIN_DEADLINE_SLEEP ==>
              forall o | o in offers && SleepDeadline(o, setting).Some? :: now + delay <= SleepDeadline(o, setting).value
    ensures delay < CHECK_INTERVAL ==>
              exists o :: o in offers && SleepDeadline(o, setting).Some? && SleepDeadline(o, setting).value <= now + delay
  {
    if setting <= 0 || offers == [] {
      assert IsSoonest(offers, setting, None);
      return CHECK_INTERVAL;
    }
    var soonest: Option<Instant> := None;
    for i := 0 to |offers|
      invariant IsSoonest(offers[..i], setting, soonest)
    {
      assert offers[..i + 1] == offers[..i] + [offers[i]];
      var final := SleepDeadline(offers[i], setting);
      if final.Some? && (soonest.None? || final.value < soonest.value) {
        assert offers[i] in offers[..i + 1];
        soonest := final;
      }
    }
    assert offers[..|offers|] == offers;
    delay := SleepFor(soonest, now);
  }

  /** Scan and sleep together: an offer read before the sleep whose final deadline falls into it is returned by
  the scan at its end, at most 0.1 s after the deadline. */
  lemma SleepThenScan(offers: seq<Offer>, server: Server, setting: int, now: Instant, delay: int, held: set<int>, o: Offer)
    requires o in offers && o.home == Some(server) && Finite(o, setting) && o.id !in held
    requires o.overtime.Some? ==> o.overtime.value <= 10
    requires SleepDeadline(o, setting).Some? && SleepDeadline(o, setting).value >= now ==>
               now + delay <= SleepDeadline(o, setting).value + MIN_DEADLINE_SLEEP
    requires now <= FinalEnd(o, setting) <= now + delay
    ensures o in Selected(offers, server, setting, now + delay, held)
    ensures now + delay - FinalEnd(o, setting) <= MIN_DEADLINE_SLEEP
  {
    SleepDeadlineExactlyWhen(o, setting);
    FlagsFollowIntake(o, setting, now + delay, false);
    SelectedMembers(offers, server, setting, now + delay, held, o);
  }

  // ----- every run of the loop

  /** One turn of `offer_expiry_loop` from the computation of its sleep to the scan behind it. `computed` is false
  when the computation raised, `scanned` when the scan did. */
  datatype Round = Round(readAt: Instant, offers: seq<Offer>, computed: bool, delay: int, scanAt: Instant, scanned: bool)

  /** The sleep is the computed one, or 2 s as the fallback; the scan starts at its end, or up to `lag` later. */
  ghost predicate RoundOk(r: Round, setting: int, lag: int) {
    && (if r.computed then exists soonest :: IsSoonest(r.offers, setting, soonest) && r.delay == SleepFor(soonest, r.readAt)
        else r.delay == CHECK_INTERVAL)
    && r.readAt + r.delay <= r.scanAt <= r.readAt + r.delay + lag
  }

  /** A run of the loop whose scans take at most `busy`. */
  ghost predicate Rounds(rs: seq<Round>, setting: int, lag: int, busy: int) {
    && (forall i | 0 <= i < |rs| :: RoundOk(rs[i], setting, lag))
    && (forall i | 0 < i < |rs| :: rs[i - 1].scanAt <= rs[i].readAt <= rs[i - 1].scanAt + busy)
  }

  /** An offer of this server that expires by time. */
  ghost predicate Expires(o: Offer, server: Server, setting: int, held: set<int>) {
    Finite(o, setting) && o.home == Some(server) && o.id !in held && (o.overtime.Some? ==> o.overtime.value <= 10)
  }

  /** The most that a round adds to the delay of an overdue offer. */
  function Overrun(r: Round, lag: int, busy: int): int {
    (if r.computed then MIN_DEADLINE_SLEEP else CHECK_INTERVAL) + lag + busy
  }

  /** The sum over rounds `from` to `to`. */
  function Overruns(rs: seq<Round>, from: nat, to: nat, lag: int, busy: int): int
    requires from <= to < |rs|
  {
    (if from < to then Overruns(rs, from, to - 1, lag, busy) else 0) + Overrun(rs[to], lag, busy)
  }

  /** A round that starts at most `late` after the deadline ends its sleep at most one overrun later. */
  lemma RoundRespects(r: Round, server: Server, setting: int, lag: int, late: int, held: set<int>, o: Offer)
    requires RoundOk(r, setting, lag) && (r.computed ==> o in r.offers) && Expires(o, server, setting, held)
    requires FinalEnd(o, setting) <= r.scanAt && r.readAt <= FinalEnd(o, setting) + late && late >= 0
    ensures DueHere(o, server, setting, r.scanAt, held)
    ensures r.scanAt <= FinalEnd(o, setting) + late + Overrun(r, lag, 0)
  {
    SleepDeadlineExactlyWhen(o, setting);
    FlagsFollowIntake(o, setting, r.scanAt, false);
    if r.computed {
      var soonest :| IsSoonest(r.offers, setting, soonest) && r.delay == SleepFor(soonest, r.readAt);
      assert soonest.Some? && soonest.value <= FinalEnd(o, setting);
    }
  }

  /** In every run of the loop an offer that stays active is found due by the first scan after its final deadline that
  does not raise. `first` is the first round whose scan comes after the deadline: from there on each round costs
  0.1 s, or 2 s where the sleep could not be computed, plus the time that scans and scheduling take. */
  lemma {:induction false} FoundInTime(
    rs: seq<Round>, n: nat, server: Server, setting: int, lag: int, busy: int, held: set<int>, o: Offer) returns (first: nat, i: nat)
    requires Rounds(rs, setting, lag, busy) && n < |rs| && busy >= 0 && Expires(o, server, setting, held)
    requires forall k | 0 <= k < |rs| && rs[k].computed :: o in rs[k].offers
    requires rs[0].readAt <= FinalEnd(o, setting) <= rs[n].scanAt && rs[n].scanned
    ensures first <= i <= n && rs[i].scanned && DueHere(o, server, setting, rs[i].scanAt, held)
    ensures forall k | first <= k < i :: !rs[k].scanned
    ensures first > 0 ==> rs[first - 1].scanAt < FinalEnd(o, setting)
    ensures FinalEnd(o, setting) <= rs[i].scanAt <= FinalEnd(o, setting) + Overruns(rs, first, i, lag, busy)
  {
    first := FirstAfter(rs, n, setting, lag, busy, o);
    i := first;
    LateBy(rs, first, i, server, setting, lag, busy, held, o);
    while !rs[i].scanned
      invariant first <= i <= n && FinalEnd(o, setting) <= rs[i].scanAt
      invariant DueHere(o, server, setting, rs[i].scanAt, held)
      invariant rs[i].scanAt <= FinalEnd(o, setting) + Overruns(rs, first, i, lag, busy)
      invariant forall k | first <= k < i :: !rs[k].scanned
      decreases n - i
    {
      i := i + 1;
      LateBy(rs, first, i, server, setting, lag, busy, held, o);
    }
  }

  /** The first round whose scan comes after the deadline. */
  lemma {:induction false} FirstAfter(rs: seq<Round>, n: nat, setting: int, lag: int, busy: int, o: Offer) returns (first: nat)
    requires Rounds(rs, setting, lag, busy) && n < |rs| && Finite(o, setting) && FinalEnd(o, setting) <= rs[n].scanAt
    ensures first <= n && FinalEnd(o, setting) <= rs[first].scanAt
    ensures first > 0 ==> rs[first - 1].scanAt < FinalEnd(o, setting)
  {
    first := n;
    if n > 0 && FinalEnd(o, setting) <= rs[n - 1].scanAt {
      first := FirstAfter(rs, n - 1, setting, lag, busy, o);
    }
  }

  lemma LateBy(
    rs: seq<Round>, first: nat, i: nat, server: Server, setting: int, lag: int, busy: int, held: set<int>, o: Offer)
    requires Rounds(rs, setting, lag, busy) && first <= i < |rs| && busy >= 0 && Expires(o, server, setting, held)
    requires rs[i].computed ==> o in rs[i].offers
    requires if i == first then FinalEnd(o, setting) <= rs[i].scanAt else FinalEnd(o, setting) <= rs[i - 1].scanAt
    requires if i > first then rs[i - 1].scanAt <= FinalEnd(o, setting) + Overruns(rs, first, i - 1, lag, busy)
             else if i > 0 then rs[i - 1].scanAt < FinalEnd(o, setting) else rs[0].readAt <= FinalEnd(o, setting)
    ensures FinalEnd(o, setting) <= rs[i].scanAt <= FinalEnd(o, setting) + Overruns(rs, first, i, lag, busy)
    ensures DueHere(o, server, setting, rs[i].scanAt, held)
  {
    assert RoundOk(rs[i], setting, lag);
    var late := busy + if i > first then rs[i - 1].scanAt - FinalEnd(o, setting) else 0;
    RoundRespects(rs[i], server, setting, lag, late, held, o);
  }

  /** Without failures: at most 0.1 s after the deadline, plus the time that one scan and scheduling take. */
  lemma FoundInTimeWithoutFailures(
    rs: seq<Round>, n: nat, server: Server, setting: int, lag: int, busy: int, held: set<int>, o: Offer) returns (i: nat)
    requires Rounds(rs, setting, lag, busy) && n < |rs| && busy >= 0 && Expires(o, server, setting, held)
    requires forall k | 0 <= k < |rs| :: o in rs[k].offers && rs[k].computed && rs[k].scanned
    requires rs[0].readAt <= FinalEnd(o, setting) <= rs[n].scanAt
    ensures i <= n && DueHere(o, server, setting, rs[i].scanAt, held)
    ensures FinalEnd(o, setting) <= rs[i].scanAt <= FinalEnd(o, setting) + MIN_DEADLINE_SLEEP + lag + busy
  {
    var first;
    first, i := FoundInTime(rs, n, server, setting, lag, busy, held, o);
    assert first == i;
  }

  // ----- the cached counts

  /** Owners that count: `if o.user_id`. */
  function Owners(expired: seq<Option<int>>): set<int> {
    set o | o in expired && o.Some? && o.value != 0 :: o.value
  }

  method CountOf(expired: seq<Option<int>>, user: int) returns (n: nat)
    ensures n == multiset(expired)[Some(user)]
  {
    n := 0;
    for i := 0 to |expired|
      invariant n == multiset(expired[..i])[Some(user)]
    {
      assert expired[..i + 1] == expired[..i] + [expired[i]];
      if expired[i] == Some(user) { n := n + 1; }
    }
    assert expired[..|expired|] == expired;
  }

  method Repeated(user: int, n: nat) returns (calls: seq<int>)
    ensures multiset(calls)[user] == n == |calls| && forall u | u != user :: multiset(calls)[u] == 0
  {
    calls := [];
    for i := 0 to n
      invariant multiset(calls)[user] == i == |calls| && forall u | u != user :: multiset(calls)[u] == 0
    {
      calls := calls + [user];
    }
  }

  /** The cache update of `expire_stale_offers`: every user's active-offer count is decremented once for each of
  the user's expired offers. `expired` holds the owners of the expired offers. */
  method DecrementCalls(expired: seq<Option<int>>) returns (calls: seq<int>)
    ensures forall u :: multiset(calls)[u] == if u == 0 then 0 else multiset(expired)[Some(u)]
  {
    calls := [];
    var rest := Owners(expired);
    while rest != {}
      invariant rest <= Owners(expired)
      invariant forall u :: multiset(calls)[u] == if u in Owners(expired) && u !in rest then multiset(expired)[Some(u)] else 0
    {
      var user :| user in rest;
      var n := CountOf(expired, user);
      var more := Repeated(user, n);
      assert multiset(calls + more) == multiset(calls) + multiset(more);
      calls, rest := calls + more, rest - {user};
    }
    forall u ensures multiset(calls)[u] == if u == 0 then 0 else multiset(expired)[Some(u)] {
      if u != 0 && u !in Owners(expired) { assert Some(u) !in expired; }
    }
  }

  // ----- remote presentations

  const PRESENTATION_TTL: int := 3_600_000_000
  const PRESENTATION_MAX_KEYS: nat := 5000

  datatype Entry = Entry(offerId: int, presentedAt: Instant)

  /** `_remote_channel_expiry_presented_at`, in insertion order. */
  class Presentations {
    var entries: seq<Entry>

    ghost predicate Valid()
      reads this
    {
      && |entries| <= PRESENTATION_MAX_KEYS
      && forall i, j | 0 <= i < j < |entries| :: entries[i].offerId != entries[j].offerId
    }

    constructor ()
      ensures Valid() && entries == []
    {
      entries := [];
    }

    /** The position of a key, or the length. */
    method Find(offerId: int) returns (i: nat)
      ensures i <= |entries|
      ensures i < |entries| ==> entries[i].offerId == offerId
      ensures i == |entries| ==> forall e | e in entries :: e.offerId != offerId
    {
      i := 0;
      while i < |entries| && entries[i].offerId != offerId
        invariant i <= |entries| && forall j | 0 <= j < i :: entries[j].offerId != offerId
      {
        i := i + 1;
      }
    }

    /** `_remember_remote_channel_expiry_result`. The map stays bounded, the offer is remembered, nothing else
    is added or changed, and what goes is expired or the oldest insertion. */
    method Remember(offerId: int, applied: bool, now: Instant)
      requires Valid()
      modifies this
      ensures Valid()
      ensures !applied ==> entries == old(entries)
      ensures applied ==> Entry(offerId, now) in entries
      ensures forall e | e in entries :: e == Entry(offerId, now) || e in old(entries)
      ensures forall i | 0 <= i < |old(entries)| && old(entries)[i].offerId != offerId ::
                old(entries)[i] in entries || i == 0 || old(entries)[i].presentedAt < now - PRESENTATION_TTL
    {
      if !applied { return; }
      var at := Find(offerId);
      if at < |entries| {
        entries := entries[at := Entry(offerId, now)];
        assert entries[at] in entries;
        forall i | 0 <= i < |old(entries)| && old(entries)[i].offerId != offerId ensures old(entries)[i] in entries {
          assert entries[i] == old(entries)[i];
        }
        return;
      }
      var all := entries + [Entry(offerId, now)];
      assert all[|entries|] in all;
      assert forall i | 0 <= i < |entries| :: all[i] == entries[i] && all[i] in all && entries[i] in entries;
      if |all| <= PRESENTATION_MAX_KEYS {
        entries := all;
        return;
      }
      entries := Evict(all, now);
    }

    /** `_remote_channel_expiry_recently_presented`; an expired entry is forgotten. */
    method RecentlyPresented(offerId: int, now: Instant) returns (recent: bool)
      requires Valid()
      modifies this
      ensures Valid()
      ensures recent <==> exists e :: e in old(entries) && e.offerId == offerId && now - e.presentedAt <= PRESENTATION_TTL
      ensures forall e :: e in entries <==>
                e in old(entries) && (e.offerId == offerId ==> now - e.presentedAt <= PRESENTATION_TTL)
    {
      var at := Find(offerId);
      if at == |entries| { return false; }
      assert entries[at] in entries;
      assert forall e | e in entries && e.offerId == offerId :: e == entries[at];
      if now - entries[at].presentedAt <= PRESENTATION_TTL { return true; }
      assert entries == entries[..at] + [entries[at]] + entries[at + 1..];
      entries := entries[..at] + entries[at + 1..];
      return false;
    }
  }

  /** The eviction loop, over a copy of the map that is one entry too long. */
  method Evict(all: seq<Entry>, now: Instant) returns (kept: seq<Entry>)
    requires |all| == PRESENTATION_MAX_KEYS + 1 && all[|all| - 1].presentedAt == now
    requires forall i, j | 0 <= i < j < |all| :: all[i].offerId != all[j].offerId
    ensures |kept| <= PRESENTATION_MAX_KEYS && all[|all| - 1] in kept
    ensures forall i, j | 0 <= i < j < |kept| :: kept[i].offerId != kept[j].offerId
    ensures forall e | e in kept :: e in all
    ensures forall i | 0 < i < |all| :: all[i] in kept || all[i].presentedAt < now - PRESENTATION_TTL
  {
    kept := [];
    for i := 0 to |all|
      invariant |kept| + |all| - i <= PRESENTATION_MAX_KEYS + if i == 0 then 1 else 0
      invariant forall e | e in kept :: e in all[..i]
      invariant forall j, k | 0 <= j < k < |kept| :: kept[j].offerId != kept[k].offerId
      invariant forall j | 0 < j < i :: all[j] in kept || all[j].presentedAt < now - PRESENTATION_TTL
    {
      if !(all[i].presentedAt < now - PRESENTATION_TTL || |kept| + |all| - i > PRESENTATION_MAX_KEYS) {
        forall e | e in kept ensures e.offerId != all[i].offerId {
          var j :| 0 <= j < i && all[j] == e;
        }
        kept := kept + [all[i]];
      }
    }
  }
}
