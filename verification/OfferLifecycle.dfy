/** The offer lifetime projection of core/offer_lifecycle.py. Instants and durations are microseconds. */
module OfferLifecycle {
  import opened Wrappers

  type Instant = int

  const MINUTE: int := 60_000_000

  datatype Server = Iran | Foreign

  /** `overtime` is None when the snapshot is not an integer; `home` is None when it is not set. */
  datatype Offer = Offer(id: int, isActive: bool, home: Option<Server>, createdAt: Option<Instant>, overtime: Option<int>)

  datatype Phase = Normal | Overtime | FinalTail | Expired | Unavailable

  datatype Intake = Automatic | Approval | Refused

  datatype Projection = Projection(
    normalDeadline: Option<Instant>, finalDeadline: Option<Instant>, timerTotalSeconds: Option<int>, phase: Phase,
    acceptsAutomatic: bool, acceptsOvertime: bool, acceptsPublic: bool, terminalExpiryDue: bool)

  /** `read_overtime_minutes_snapshot`. */
  function ReadOvertime(offer: Offer): int {
    match offer.overtime
    case None => 0
    case Some(n) => if n < 0 then 0 else if n > 10 then 10 else n
  }

  /** `read_normal_lifetime_minutes` of an integer setting. */
  function ReadMinutes(setting: int): int {
    if setting < 0 then 0 else setting
  }

  /** `compute_lifecycle_deadlines`. */
  function Deadlines(createdAt: Option<Instant>, normalMinutes: int, overtimeMinutes: int): Option<(Instant, Instant)> {
    if createdAt.None? || normalMinutes <= 0 then None
    else
      var normal := createdAt.value + normalMinutes * MINUTE;
      Some((normal, normal + (if overtimeMinutes < 0 then 0 else overtimeMinutes) * MINUTE))
  }

  /** `classify_request_intake_phase`; without a usable lifetime requests stay automatic. */
  function Classify(receipt: Option<Instant>, normal: Option<Instant>, final: Option<Instant>, overtimeMinutes: int): Intake {
    if receipt.None? || normal.None? || final.None? then Automatic
    else if receipt.value < normal.value then Automatic
    else if overtimeMinutes > 0 && normal.value < receipt.value < final.value then Approval
    else Refused
  }

  /** `project_offer_lifecycle`. */
  function Project(offer: Offer, setting: int, now: Instant, hasFinalTail: bool): Projection {
    var minutes, overtime := ReadMinutes(setting), ReadOvertime(offer);
    var deadlines := Deadlines(offer.createdAt, minutes, overtime);
    if deadlines.None? then Projection(None, None, None, Unavailable, true, false, offer.isActive, false)
    else
      var (normal, final) := deadlines.value;
      var raw :=
        if !offer.isActive then Projection(Some(normal), Some(final), None, Expired, false, false, false, false)
        else if now < normal then Projection(Some(normal), Some(final), Some(minutes * 60), Normal, true, false, true, false)
        else if overtime > 0 && now < final then
          Projection(Some(normal), Some(final), Some(overtime * 60), Overtime, false, true, true, false)
        else if hasFinalTail && now >= final then
          Projection(Some(normal), Some(final), Some(0), FinalTail, false, false, false, false)
        else
          Projection(Some(normal), Some(final), Some(0), Expired, false, false, false, now >= final && !hasFinalTail);
      var intake := Classify(Some(now), Some(normal), Some(final), overtime);
      if offer.isActive && raw.phase != FinalTail && raw.phase != Expired then
        raw.(acceptsAutomatic := intake == Automatic, acceptsOvertime := intake == Approval, acceptsPublic := intake != Refused)
      else raw
  }

  /** An active offer with a finite lifetime. */
  predicate Finite(offer: Offer, setting: int) {
    offer.isActive && offer.createdAt.Some? && setting > 0
  }

  function NormalEnd(offer: Offer, setting: int): Instant
    requires Finite(offer, setting)
  {
    offer.createdAt.value + setting * MINUTE
  }

  function FinalEnd(offer: Offer, setting: int): Instant
    requires Finite(offer, setting)
  {
    NormalEnd(offer, setting) + ReadOvertime(offer) * MINUTE
  }

  /** At every instant the acceptance flags are the receipt classification of that instant: automatic strictly
  before the normal deadline, by approval strictly between the deadlines, nothing at the boundaries or later. */
  lemma FlagsFollowIntake(offer: Offer, setting: int, now: Instant, tail: bool)
    requires Finite(offer, setting)
    ensures var p, normal, final := Project(offer, setting, now, tail), NormalEnd(offer, setting), FinalEnd(offer, setting);
            && p.normalDeadline == Some(normal) && p.finalDeadline == Some(final) && normal <= final
            && (p.acceptsAutomatic <==> Classify(Some(now), Some(normal), Some(final), ReadOvertime(offer)) == Automatic)
            && (p.acceptsOvertime <==> Classify(Some(now), Some(normal), Some(final), ReadOvertime(offer)) == Approval)
            && (p.acceptsAutomatic <==> now < normal)
            && (p.acceptsOvertime <==> normal < now < final)
            && (p.acceptsPublic <==> p.acceptsAutomatic || p.acceptsOvertime)
            && (p.terminalExpiryDue <==> now >= final && !tail)
            && (p.phase == Normal <==> now < normal) && (p.phase == Overtime <==> normal <= now < final)
            && (p.phase == FinalTail <==> now >= final && tail) && (p.phase == Expired <==> now >= final && !tail)
            && p.timerTotalSeconds == Some(if now < normal then setting * 60 else if now < final then ReadOvertime(offer) * 60 else 0)
  {
  }

  /** Outside a lifetime: an inactive offer with deadlines is expired and takes nothing; an offer without a usable lifetime
  has no deadlines, stays automatic, and is public exactly while it is active. */
  lemma OutsideLifetime(offer: Offer, setting: int, now: Instant, tail: bool)
    requires !Finite(offer, setting)
    ensures var p := Project(offer, setting, now, tail);
            && !p.terminalExpiryDue && !p.acceptsOvertime && p.timerTotalSeconds.None?
            && (if offer.createdAt.Some? && setting > 0 then p.phase == Expired && !p.acceptsAutomatic && !p.acceptsPublic
                else p.phase == Unavailable && p.acceptsAutomatic && p.finalDeadline.None? && (p.acceptsPublic <==> offer.isActive))
  {
  }

  /** Overtime snapshots count from 0 to 10 minutes, and only when they are integers; requests without a receipt or
  deadlines are automatic. */
  lemma OvertimeClamped(offer: Offer, receipt: Option<Instant>, normal: Option<Instant>, final: Option<Instant>)
    ensures 0 <= ReadOvertime(offer) <= 10
    ensures offer.overtime.Some? && 0 <= offer.overtime.value <= 10 ==> ReadOvertime(offer) == offer.overtime.value
    ensures offer.overtime.None? || offer.overtime.value < 0 ==> ReadOvertime(offer) == 0
    ensures offer.overtime.Some? && offer.overtime.value > 10 ==> ReadOvertime(offer) == 10
    ensures receipt.None? || normal.None? || final.None? ==> Classify(receipt, normal, final, ReadOvertime(offer)) == Automatic
  {
  }

  function Rank(phase: Phase): int {
    match phase case Normal => 0 case Overtime => 1 case _ => 2
  }

  /** Time only moves an offer forward: the phase never goes back, whatever happens to tail requests, automatic
  intake never reopens, and after the final deadline no intake does. */
  lemma LifecycleOnlyAdvances(offer: Offer, setting: int, earlier: Instant, later: Instant, tail: bool, tail': bool)
    requires Finite(offer, setting) && earlier <= later
    ensures var p, q := Project(offer, setting, earlier, tail), Project(offer, setting, later, tail');
            && Rank(p.phase) <= Rank(q.phase)
            && (q.acceptsAutomatic ==> p.acceptsAutomatic)
            && (earlier >= FinalEnd(offer, setting) ==> !q.acceptsAutomatic && !q.acceptsOvertime && !q.acceptsPublic)
            && (p.terminalExpiryDue && !tail' ==> q.terminalExpiryDue)
  {
  }

  /** Offers that are not active, or have no finite lifetime, are never expired by time. */
  lemma OnlyFiniteOffersExpire(offer: Offer, setting: int, now: Instant, tail: bool)
    requires Project(offer, setting, now, tail).terminalExpiryDue
    ensures Finite(offer, setting) && now >= FinalEnd(offer, setting) && !tail
  {
  }

  /** `stale_final_cutoff_time`: the offers created at or before it are those whose final deadline has passed. */
  function StaleCutoff(now: Instant, setting: int, overtimeMinutes: int): Option<Instant> {
    if ReadMinutes(setting) <= 0 then None
    else Some(now - (ReadMinutes(setting) + if overtimeMinutes < 0 then 0 else overtimeMinutes) * MINUTE)
  }

  lemma CutoffIsFinalDeadline(offer: Offer, setting: int, now: Instant)
    requires Finite(offer, setting)
    ensures var cutoff := StaleCutoff(now, setting, ReadOvertime(offer));
            cutoff.Some? && (offer.createdAt.value <= cutoff.value <==> now >= FinalEnd(offer, setting))
  {
  }
}
