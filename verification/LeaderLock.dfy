/** The background leader lock of main.py: many API workers, one Redis key with a time to live.

A run interleaves the steps of any number of workers with the passing of time. Time is an integer;
a key is live strictly before its expiry. A Redis command takes effect at one instant. A command whose
call raises may have taken effect or not, and may still take effect later. */
module LeaderLock {

  type WorkerId = nat // stands for the token, which is unique to the worker

  datatype Lock = Free | Held(owner: WorkerId, expiry: int)

  datatype Phase =
    | Idle      // outside the try block, or asleep after a failed acquire
    | Granted   // SET NX took effect, the reply is on its way
    | Leading   // in the refresh loop
    | Stopping  // in _cancel_background_jobs
    | Releasing // jobs stopped, about to run the release script
    | Gone      // the leader task has ended

  /** `granted` is the instant of the last acquire or refresh that the worker got an answer to;
  `wakeAt` is the earliest end of the sleep before the next refresh; `undercut` says that a late
  release of the worker's own deleted the key of its present grant. */
  datatype Worker = Worker(phase: Phase, running: bool, granted: int, wakeAt: int, undercut: bool)

  /** `unanswered` holds the workers whose last release raised and may still reach the server. */
  datatype System = System(now: int, lock: Lock, workers: map<WorkerId, Worker>, unanswered: set<WorkerId>)

  /** `ttl_seconds` and `refresh_seconds`, after their lower bounds. */
  datatype Timing = Timing(ttl: int, refresh: int)

  function ConfiguredTiming(ttlSetting: int, refreshSetting: int): (t: Timing)
    ensures t.ttl >= 30 && t.refresh >= 5
    ensures t.refresh >= t.ttl <==> refreshSetting >= 30 && refreshSetting >= ttlSetting
  {
    Timing(if ttlSetting < 30 then 30 else ttlSetting, if refreshSetting < 5 then 5 else refreshSetting)
  }

  datatype Event =
    | Tick(elapsed: int)
    | TryAcquire(w: WorkerId)                     // SET key token EX ttl NX
    | ReplyLost(w: WorkerId)                      // the acquire call raised although it took effect
    | StartJobs(w: WorkerId)
    | StartFails(w: WorkerId)                     // the job factories raise, or the task is cancelled
    | Refresh(w: WorkerId)                        // the compare-and-expire script, answered
    | RefreshRaises(w: WorkerId, executed: bool)  // the same call raises
    | Interrupt(w: WorkerId)                      // cancelled while asleep
    | JobsDone(w: WorkerId)                       // gather() in _cancel_background_jobs returns
    | Abandon(w: WorkerId)                        // cancelled again inside _cancel_background_jobs
    | WindDown(w: WorkerId)                       // abandoned jobs end by themselves
    | Release(w: WorkerId, ends: bool)            // the compare-and-delete script, answered
    | ReleaseRaises(w: WorkerId, executed: bool, ends: bool)
    | LateRelease(w: WorkerId)                    // an unanswered release takes effect after all
    | LateAcquire(w: WorkerId)                    // the same for an acquire or a refresh; here at any time,
    | LateRefresh(w: WorkerId)                    // which allows more than can happen

  predicate Live(s: System) {
    s.lock.Held? && s.now < s.lock.expiry
  }

  predicate OwnsLive(s: System, w: WorkerId) {
    Live(s) && s.lock.owner == w
  }

  predicate InPhase(s: System, w: WorkerId, phase: Phase) {
    w in s.workers && s.workers[w].phase == phase
  }

  predicate Enabled(s: System, e: Event) {
    match e
    case Tick(elapsed) => elapsed > 0
    case TryAcquire(w) => InPhase(s, w, Idle)
    case ReplyLost(w) => InPhase(s, w, Granted)
    case StartJobs(w) => InPhase(s, w, Granted)
    case StartFails(w) => InPhase(s, w, Granted)
    case Refresh(w) => InPhase(s, w, Leading) && s.workers[w].wakeAt <= s.now
    case RefreshRaises(w, _) => InPhase(s, w, Leading) && s.workers[w].wakeAt <= s.now
    case Interrupt(w) => InPhase(s, w, Leading)
    case JobsDone(w) => InPhase(s, w, Stopping)
    case Abandon(w) => InPhase(s, w, Stopping)
    case WindDown(w) => InPhase(s, w, Gone)
    case Release(w, _) => InPhase(s, w, Releasing)
    case ReleaseRaises(w, _, _) => InPhase(s, w, Releasing)
    case LateRelease(w) => w in s.workers && w in s.unanswered
    case LateAcquire(w) => w in s.workers
    case LateRefresh(w) => w in s.workers
  }

  /** The refresh script: extends the key only when it holds the caller's token. */
  function RefreshScript(t: Timing, s: System, w: WorkerId): Lock {
    if OwnsLive(s, w) then Held(w, s.now + t.ttl) else s.lock
  }

  /** The release script: deletes the key only when it holds the caller's token. */
  function ReleaseScript(s: System, w: WorkerId): Lock {
    if OwnsLive(s, w) then Free else s.lock
  }

  function Step(t: Timing, s: System, e: Event): System
    requires Enabled(s, e)
  {
    match e
    case Tick(elapsed) => s.(now := s.now + elapsed)
    case TryAcquire(w) =>
      if Live(s) then s
      else s.(lock := Held(w, s.now + t.ttl),
              workers := s.workers[w := s.workers[w].(phase := Granted, granted := s.now, undercut := false)])
    case ReplyLost(w) => s.(workers := s.workers[w := s.workers[w].(phase := Idle)])
    case StartJobs(w) =>
      s.(workers := s.workers[w := s.workers[w].(phase := Leading, running := true, wakeAt := s.now + t.refresh)])
    case StartFails(w) => s.(workers := s.workers[w := s.workers[w].(phase := Stopping)])
    case Refresh(w) =>
      if OwnsLive(s, w)
      then s.(lock := RefreshScript(t, s, w),
              workers := s.workers[w := s.workers[w].(granted := s.now, wakeAt := s.now + t.refresh, undercut := false)])
      else s.(workers := s.workers[w := s.workers[w].(phase := Stopping)])
    case RefreshRaises(w, executed) =>
      s.(lock := if executed then RefreshScript(t, s, w) else s.lock,
         workers := s.workers[w := s.workers[w].(phase := Stopping)])
    case Interrupt(w) => s.(workers := s.workers[w := s.workers[w].(phase := Stopping)])
    case JobsDone(w) => s.(workers := s.workers[w := s.workers[w].(phase := Releasing, running := false)])
    case Abandon(w) => s.(workers := s.workers[w := s.workers[w].(phase := Gone)])
    case WindDown(w) => s.(workers := s.workers[w := s.workers[w].(running := false)])
    case Release(w, ends) =>
      s.(lock := ReleaseScript(s, w),
         workers := s.workers[w := s.workers[w].(phase := if ends then Gone else Idle)])
    case ReleaseRaises(w, executed, ends) =>
      s.(lock := if executed then ReleaseScript(s, w) else s.lock,
         workers := s.workers[w := s.workers[w].(phase := if ends then Gone else Idle)],
         unanswered := if executed then s.unanswered else s.unanswered + {w})
    case LateRelease(w) =>
      s.(lock := ReleaseScript(s, w),
         workers := s.workers[w := s.workers[w].(undercut := s.workers[w].undercut || OwnsLive(s, w))],
         unanswered := s.unanswered - {w})
    case LateAcquire(w) => if Live(s) then s else s.(lock := Held(w, s.now + t.ttl))
    case LateRefresh(w) => s.(lock := RefreshScript(t, s, w))
  }

  /** The worker that takes a step. */
  predicate IsBy(e: Event, w: WorkerId) {
    !e.Tick? && e.w == w
  }

  // ----- runs

  /** Workers start idle; the key may still be there from before. */
  ghost predicate Initial(s: System) {
    s.unanswered == {} && forall w | w in s.workers :: s.workers[w].phase == Idle && !s.workers[w].running && !s.workers[w].undercut
  }

  ghost predicate Run(t: Timing, ss: seq<System>, es: seq<Event>) {
    && |ss| == |es| + 1 && Initial(ss[0])
    && forall i | 0 <= i < |es| :: Enabled(ss[i], es[i]) && ss[i + 1] == Step(t, ss[i], es[i])
  }

  /** A grant that the worker may still act on. */
  predicate HasGrant(k: Worker) {
    k.running || k.phase.Granted? || k.phase.Leading? || k.phase.Stopping?
  }

  /** The heart of the protocol: a worker within the TTL of its grant is the live owner of the key. */
  ghost predicate GrantKept(t: Timing, s: System, w: WorkerId)
    requires w in s.workers
  {
    var k := s.workers[w];
    && (k.phase.Idle? || k.phase.Granted? || k.phase.Releasing? ==> !k.running)
    && (k.phase.Leading? ==> k.wakeAt >= k.granted + t.refresh)
    && (HasGrant(k) ==> k.granted <= s.now)
    && (HasGrant(k) && !k.undercut && s.now < k.granted + t.ttl ==> OwnsLive(s, w) && s.lock.expiry >= k.granted + t.ttl)
  }

  ghost predicate Inv(t: Timing, s: System) {
    forall w | w in s.workers :: GrantKept(t, s, w)
  }

  /** No worker extends or deletes a live lock that holds another worker's token. */
  lemma OnlyTheOwnerTouchesALiveLock(t: Timing, s: System, e: Event, v: WorkerId)
    requires Enabled(s, e) && OwnsLive(s, v) && !IsBy(e, v)
    ensures Step(t, s, e).lock == s.lock
  {
  }

  /** The steps of others, and time, take nothing from a worker within its TTL. */
  lemma OthersKeepGrant(t: Timing, s: System, e: Event, w: WorkerId)
    requires t.ttl > 0 && Enabled(s, e) && !IsBy(e, w) && w in s.workers && GrantKept(t, s, w)
    ensures w in Step(t, s, e).workers && GrantKept(t, Step(t, s, e), w)
  {
    var s' := Step(t, s, e);
    assert s'.workers[w] == s.workers[w];
    if OwnsLive(s, w) && !e.Tick? {
      OnlyTheOwnerTouchesALiveLock(t, s, e, w);
    }
  }

  lemma MoverKeepsGrant(t: Timing, s: System, e: Event, w: WorkerId)
    requires t.ttl > 0 && Enabled(s, e) && IsBy(e, w) && w in s.workers && GrantKept(t, s, w)
    ensures w in Step(t, s, e).workers && GrantKept(t, Step(t, s, e), w)
  {
    var k := s.workers[w];
    match e
    case TryAcquire(_) =>
    case Refresh(_) =>
    case RefreshRaises(_, _) =>
    case Release(_, _) => assert !HasGrant(k);
    case ReleaseRaises(_, _, _) => assert !HasGrant(k);
    case LateRelease(_) =>
    case _ =>
  }

  lemma StepKeeps(t: Timing, s: System, e: Event)
    requires t.ttl > 0 && Inv(t, s) && Enabled(s, e)
    ensures Inv(t, Step(t, s, e))
  {
    forall w | w in Step(t, s, e).workers ensures GrantKept(t, Step(t, s, e), w) {
      assert GrantKept(t, s, w);
      if IsBy(e, w) { MoverKeepsGrant(t, s, e, w); } else { OthersKeepGrant(t, s, e, w); }
    }
  }

  lemma {:induction false} RunInv(t: Timing, ss: seq<System>, es: seq<Event>, i: nat)
    requires t.ttl > 0 && Run(t, ss, es) && i < |ss|
    ensures Inv(t, ss[i])
  {
    if i > 0 {
      RunInv(t, ss, es, i - 1);
      StepKeeps(t, ss[i - 1], es[i - 1]);
    }
  }

  /** The worker refreshed, or stopped its jobs, within the TTL of its last acquire or refresh. */
  predicate Timely(t: Timing, s: System, w: WorkerId)
    requires w in s.workers
  {
    s.workers[w].running ==> s.now < s.workers[w].granted + t.ttl
  }

  /** Mutual exclusion: at every instant of every run, of the workers with running jobs at most one is
  within the TTL of its last grant, unless its own late release undercut that grant. Timeliness is
  asked of the two workers at that instant only. */
  lemma AtMostOneLeader(t: Timing, ss: seq<System>, es: seq<Event>, i: nat, v: WorkerId, w: WorkerId)
    requires t.ttl > 0 && Run(t, ss, es) && i < |ss|
    requires v in ss[i].workers && w in ss[i].workers
    requires ss[i].workers[v].running && ss[i].workers[w].running
    requires Timely(t, ss[i], v) && !ss[i].workers[v].undercut
    requires Timely(t, ss[i], w) && !ss[i].workers[w].undercut
    ensures v == w
  {
    RunInv(t, ss, es, i);
    assert GrantKept(t, ss[i], v) && GrantKept(t, ss[i], w);
  }

  /** The step gives the worker a new grant: an acquire that takes the key, or a refresh that is answered with it. */
  predicate Renews(s: System, e: Event, w: WorkerId) {
    IsBy(e, w) && ((e.TryAcquire? && !Live(s)) || (e.Refresh? && OwnsLive(s, w)))
  }

  /** Step j is a late release of the worker's own that deletes its live key, and no grant came since. */
  ghost predicate HitAt(ss: seq<System>, es: seq<Event>, i: nat, w: WorkerId, j: nat)
    requires |ss| == |es| + 1 && i <= |es|
  {
    && j < i && es[j] == LateRelease(w) && OwnsLive(ss[j], w)
    && forall k | j < k < i :: !Renews(ss[k], es[k], w)
  }

  ghost predicate Hit(ss: seq<System>, es: seq<Event>, i: nat, w: WorkerId)
    requires |ss| == |es| + 1 && i <= |es|
  {
    exists j :: HitAt(ss, es, i, w, j)
  }

  /** One more step: hit by this step, or hit before it and not renewed by it. */
  lemma HitGrows(ss: seq<System>, es: seq<Event>, i: nat, w: WorkerId)
    requires |ss| == |es| + 1 && i < |es|
    ensures Hit(ss, es, i + 1, w) <==>
            (es[i] == LateRelease(w) && OwnsLive(ss[i], w)) || (Hit(ss, es, i, w) && !Renews(ss[i], es[i], w))
  {
    if es[i] == LateRelease(w) && OwnsLive(ss[i], w) { assert HitAt(ss, es, i + 1, w, i); }
    if Hit(ss, es, i, w) && !Renews(ss[i], es[i], w) {
      var j: nat :| HitAt(ss, es, i, w, j);
      assert HitAt(ss, es, i + 1, w, j);
    }
    if Hit(ss, es, i + 1, w) {
      var j: nat :| HitAt(ss, es, i + 1, w, j);
      if j < i { assert HitAt(ss, es, i, w, j); }
    }
  }

  /** A grant is undercut exactly when a late release of the worker's own hit its live key after its last acquire or
  refresh. */
  lemma {:induction false} UndercutExactlyWhen(t: Timing, ss: seq<System>, es: seq<Event>, i: nat, w: WorkerId)
    requires Run(t, ss, es) && i < |ss| && w in ss[i].workers
    ensures ss[i].workers[w].undercut <==> Hit(ss, es, i, w)
  {
    if i > 0 {
      assert ss[i] == Step(t, ss[i - 1], es[i - 1]);
      assert w in ss[i - 1].workers;
      UndercutExactlyWhen(t, ss, es, i - 1, w);
      HitGrows(ss, es, i - 1, w);
    }
  }

  /** Mutual exclusion in the events of the run: two different workers with running jobs, both within the TTL of their
  last grant, mean that a late release hit one of them after that grant. */
  lemma TwoLeadersWereHit(t: Timing, ss: seq<System>, es: seq<Event>, i: nat, v: WorkerId, w: WorkerId)
    requires t.ttl > 0 && Run(t, ss, es) && i < |ss| && Overlap(ss[i], v, w)
    requires Timely(t, ss[i], v) && Timely(t, ss[i], w)
    ensures Hit(ss, es, i, v) || Hit(ss, es, i, w)
  {
    UndercutExactlyWhen(t, ss, es, i, v);
    UndercutExactlyWhen(t, ss, es, i, w);
    if !ss[i].workers[v].undercut && !ss[i].workers[w].undercut { AtMostOneLeader(t, ss, es, i, v, w); }
  }

  /** Jobs stop before the lock is released: only its owner frees a live key; when it does so by a release that is
  answered or raises, its jobs are no longer running, and no other worker has timely running jobs. A release
  that takes effect late marks the grant it takes as undercut. */
  lemma JobsStopBeforeRelease(t: Timing, ss: seq<System>, es: seq<Event>, i: nat, w: WorkerId, v: WorkerId)
    requires t.ttl > 0 && Run(t, ss, es) && i < |es|
    requires w in ss[i].workers && v in ss[i].workers && OwnsLive(ss[i], w) && ss[i + 1].lock == Free
    ensures IsBy(es[i], w)
    ensures !es[i].LateRelease? ==> !ss[i].workers[w].running && !ss[i + 1].workers[w].running
    ensures !es[i].LateRelease? && Timely(t, ss[i], v) && !ss[i].workers[v].undercut ==> !ss[i].workers[v].running
    ensures es[i].LateRelease? ==> ss[i + 1].workers[w].undercut
  {
    RunInv(t, ss, es, i);
    assert GrantKept(t, ss[i], v) && GrantKept(t, ss[i], w);
  }

  /** The step tells a leader to stop: its refresh is refused because the key is not its own any more, its refresh
  raises, or it is cancelled. */
  predicate TellsToStop(s: System, e: Event, w: WorkerId) {
    IsBy(e, w) && ((e.Refresh? && !OwnsLive(s, w)) || e.RefreshRaises? || e.Interrupt?)
  }

  predicate WindsUp(k: Worker) {
    k.phase == Stopping || k.phase == Gone
  }

  /** A worker that winds up goes on doing so until its jobs have stopped. */
  lemma WindingUpGoesOn(t: Timing, s: System, e: Event, w: WorkerId)
    requires Enabled(s, e) && w in s.workers && WindsUp(s.workers[w])
    ensures var s' := Step(t, s, e); w in s'.workers && (WindsUp(s'.workers[w]) || !s'.workers[w].running)
  {
  }

  lemma WorkerStays(t: Timing, s: System, e: Event, w: WorkerId)
    requires Enabled(s, e) && w in s.workers
    ensures w in Step(t, s, e).workers
  {
  }

  lemma StopsWhenTold(t: Timing, s: System, e: Event, w: WorkerId)
    requires Enabled(s, e) && w in s.workers && TellsToStop(s, e, w)
    ensures w in Step(t, s, e).workers && WindsUp(Step(t, s, e).workers[w])
  {
  }

  ghost predicate StoppedSince(ss: seq<System>, i: nat, j: nat, w: WorkerId) {
    exists k :: i < k <= j < |ss| && w in ss[k].workers && !ss[k].workers[w].running
  }

  /** A leader that learns that it lost the lock, or can no longer tell, stops: in every later state of every run its
  jobs have stopped since, or it is stopping them. */
  lemma {:induction false} LostLeaderStops(t: Timing, ss: seq<System>, es: seq<Event>, i: nat, j: nat, w: WorkerId)
    requires Run(t, ss, es) && i < j < |ss| && w in ss[i].workers && TellsToStop(ss[i], es[i], w)
    ensures w in ss[j].workers && (StoppedSince(ss, i, j, w) || WindsUp(ss[j].workers[w]))
    decreases j
  {
    var s, e := ss[j - 1], es[j - 1];
    assert ss[j] == Step(t, s, e);
    if j == i + 1 {
      StopsWhenTold(t, s, e, w);
    } else {
      LostLeaderStops(t, ss, es, i, j - 1, w);
      WorkerStays(t, s, e, w);
      if WindsUp(s.workers[w]) { WindingUpGoesOn(t, s, e, w); }
    }
  }

  /** A worker that was granted the lock gives up its leadership only by way of the release script, except when the
  reply to its acquire was lost or its shutdown was cancelled; jobs start only under a grant. */
  lemma LeavesThroughRelease(t: Timing, s: System, e: Event, w: WorkerId)
    requires Enabled(s, e) && w in s.workers
    ensures var k, k' := s.workers[w], Step(t, s, e).workers[w];
            && (k.phase.Granted? || k.phase.Leading? || k.phase.Stopping? ==>
                  (k'.phase.Idle? ==> e == ReplyLost(w)) && (k'.phase.Gone? ==> e == Abandon(w)))
            && (k.phase.Releasing? && !k'.phase.Releasing? ==> IsBy(e, w) && (e.Release? || e.ReleaseRaises?))
            && (!k.running && k'.running ==> e == StartJobs(w) && k.phase.Granted?)
  {
  }

  /** The scripts do their work: a release that is answered frees the caller's live key, a refresh that is answered
  extends it by the TTL, and an acquire takes a key that is not live. */
  lemma ScriptsWork(t: Timing, s: System, e: Event, w: WorkerId)
    requires Enabled(s, e) && IsBy(e, w) && w in s.workers
    ensures OwnsLive(s, w) && e.Release? ==> Step(t, s, e).lock == Free
    ensures OwnsLive(s, w) && e.Refresh? ==> Step(t, s, e).lock == Held(w, s.now + t.ttl) && Step(t, s, e).workers[w].phase.Leading?
    ensures !Live(s) && e.TryAcquire? ==> Step(t, s, e).lock == Held(w, s.now + t.ttl) && Step(t, s, e).workers[w].phase.Granted?
    ensures Live(s) && e.TryAcquire? ==> Step(t, s, e) == s
  {
  }

  /** When the refresh period is not shorter than the TTL no refresh of any run comes in time: the lock of that
  grant has expired. The settings allow it, when the refresh setting is at least 30 and at least the TTL setting. */
  lemma SlowRefreshIsNeverInTime(ttlSetting: int, refreshSetting: int, ss: seq<System>, es: seq<Event>, i: nat)
    requires refreshSetting >= 30 && refreshSetting >= ttlSetting
    requires var t := ConfiguredTiming(ttlSetting, refreshSetting); Run(t, ss, es) && i < |es| && es[i].Refresh?
    ensures var t := ConfiguredTiming(ttlSetting, refreshSetting);
            es[i].w in ss[i].workers && ss[i].now >= ss[i].workers[es[i].w].granted + t.ttl
  {
    var t := ConfiguredTiming(ttlSetting, refreshSetting);
    RunInv(t, ss, es, i);
    assert GrantKept(t, ss[i], es[i].w);
  }

  lemma Extend(t: Timing, ss: seq<System>, es: seq<Event>, e: Event) returns (ss': seq<System>, es': seq<Event>)
    requires Run(t, ss, es) && Enabled(ss[|es|], e)
    ensures Run(t, ss', es') && ss'[|es'|] == Step(t, ss[|es|], e) && es' == es + [e]
  {
    ss', es' := ss + [Step(t, ss[|es|], e)], es + [e];
  }

  /** Under all other settings a worker can lead on and on: there is a run whose refresh extends the grant. */
  lemma FastRefreshCanBeInTime(ttlSetting: int, refreshSetting: int, w: WorkerId) returns (ss: seq<System>, es: seq<Event>)
    requires !(refreshSetting >= 30 && refreshSetting >= ttlSetting)
    ensures var t := ConfiguredTiming(ttlSetting, refreshSetting);
            && Run(t, ss, es) && |es| > 0 && es[|es| - 1] == Refresh(w)
            && InPhase(ss[|es|], w, Leading) && Timely(t, ss[|es|], w) && OwnsLive(ss[|es|], w) && ss[|es|].workers[w].granted == ss[|es|].now
  {
    var t := ConfiguredTiming(ttlSetting, refreshSetting);
    ss, es := [System(0, Free, map[w := Worker(Idle, false, 0, 0, false)], {})], [];
    ss, es := Extend(t, ss, es, TryAcquire(w));
    ss, es := Extend(t, ss, es, StartJobs(w));
    ss, es := Extend(t, ss, es, Tick(t.refresh));
    ss, es := Extend(t, ss, es, Refresh(w));
  }

  ghost predicate Overlap(s: System, v: WorkerId, w: WorkerId) {
    v in s.workers && w in s.workers && v != w && s.workers[v].running && s.workers[w].running
  }

  /** Timeliness is needed: a leader that oversleeps the TTL runs next to its successor. */
  lemma OversleepingOverlaps(t: Timing, late: WorkerId, next: WorkerId) returns (ss: seq<System>, es: seq<Event>)
    requires t.ttl > 0 && late != next
    ensures Run(t, ss, es) && Overlap(ss[|es|], late, next)
    ensures !Timely(t, ss[|es|], late) && Timely(t, ss[|es|], next) && !ss[|es|].workers[late].undercut
  {
    var idle := Worker(Idle, false, 0, 0, false);
    ss, es := [System(0, Free, map[late := idle, next := idle], {})], [];
    ss, es := Extend(t, ss, es, TryAcquire(late));
    ss, es := Extend(t, ss, es, StartJobs(late));
    ss, es := Extend(t, ss, es, Tick(t.ttl));
    ss, es := Extend(t, ss, es, TryAcquire(next));
    ss, es := Extend(t, ss, es, StartJobs(next));
  }

  lemma UnansweredRelease(t: Timing, v: WorkerId, w: WorkerId, idle: Worker) returns (ss: seq<System>, es: seq<Event>)
    requires t.ttl > 0 && v != w && idle == Worker(Idle, false, 0, 0, false)
    ensures Run(t, ss, es) && ss[|es|] == System(0, Held(v, t.ttl), map[v := idle, w := idle], {v})
  {
    ss, es := [System(0, Free, map[v := idle, w := idle], {})], [];
    ss, es := Extend(t, ss, es, TryAcquire(v));
    ss, es := Extend(t, ss, es, StartFails(v));
    ss, es := Extend(t, ss, es, JobsDone(v));
    ss, es := Extend(t, ss, es, ReleaseRaises(v, false, false));
    assert ss[|es|].workers == map[v := idle, w := idle];
  }

  lemma Undercut(t: Timing, v: WorkerId, w: WorkerId, idle: Worker) returns (ss: seq<System>, es: seq<Event>)
    requires t.ttl > 0 && v != w && idle == Worker(Idle, false, 0, 0, false)
    ensures Run(t, ss, es)
    ensures ss[|es|] == System(t.ttl, Free, map[v := Worker(Leading, true, t.ttl, t.ttl + t.refresh, true), w := idle], {})
  {
    ss, es := UnansweredRelease(t, v, w, idle);
    ss, es := Extend(t, ss, es, Tick(t.ttl));
    ss, es := Extend(t, ss, es, TryAcquire(v));
    ss, es := Extend(t, ss, es, StartJobs(v));
    ss, es := Extend(t, ss, es, LateRelease(v));
    assert ss[|es|].workers == map[v := Worker(Leading, true, t.ttl, t.ttl + t.refresh, true), w := idle];
  }

  /** So is the absence of late releases, because the token outlives the grant: a release that times out,
  reaches the server after the worker led again, and deletes the new key, lets a second leader in although
  both are within the TTL. */
  lemma LateReleaseOverlaps(t: Timing, v: WorkerId, w: WorkerId) returns (ss: seq<System>, es: seq<Event>)
    requires t.ttl > 0 && v != w
    ensures Run(t, ss, es) && Overlap(ss[|es|], v, w)
    ensures Timely(t, ss[|es|], v) && Timely(t, ss[|es|], w)
  {
    ss, es := Undercut(t, v, w, Worker(Idle, false, 0, 0, false));
    ss, es := Extend(t, ss, es, TryAcquire(w));
    ss, es := Extend(t, ss, es, StartJobs(w));
  }
}
