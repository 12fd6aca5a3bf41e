/** Accounting over every run of the error limiter. */
module ErrorLimiterRuns {
  import opened ErrorLimiter

  datatype Call = Call(key: Fingerprint, now: real)

  /** The table and the outcomes after a sequence of calls on an empty table. */
  function Run(l: Limits, calls: seq<Call>): (seq<Entry>, seq<Outcome>) {
    if calls == [] then ([], [])
    else
      var (entries, trace) := Run(l, calls[..|calls| - 1]);
      var (after, o) := AfterCall(l, entries, calls[|calls| - 1].key, calls[|calls| - 1].now);
      (after, trace + [o])
  }

  lemma {:induction false} RunKept(l: Limits, calls: seq<Call>)
    requires Positive(l)
    ensures Kept(l, Run(l, calls).0)
  {
    if calls != [] {
      RunKept(l, calls[..|calls| - 1]);
      CallKeeps(l, Run(l, calls[..|calls| - 1]).0, calls[|calls| - 1].key, calls[|calls| - 1].now);
    }
  }

  // ----- conservation of calls

  function One(b: bool): nat { if b then 1 else 0 }

  function CallsOf(calls: seq<Call>, key: Fingerprint): nat {
    if calls == [] then 0 else CallsOf(calls[..|calls| - 1], key) + One(calls[|calls| - 1].key == key)
  }

  function Captures(trace: seq<Outcome>, key: Fingerprint): nat {
    if trace == [] then 0
    else Captures(trace[..|trace| - 1], key) + One(trace[|trace| - 1].key == key && trace[|trace| - 1].captured)
  }

  /** The suppressions that later captures reported. */
  function Reported(trace: seq<Outcome>, key: Fingerprint): nat {
    if trace == [] then 0
    else Reported(trace[..|trace| - 1], key) + if trace[|trace| - 1].key == key then trace[|trace| - 1].reported else 0
  }

  /** The suppressions counted in a list of entries. */
  function Pending(entries: seq<Entry>, key: Fingerprint): nat {
    if entries == [] then 0
    else Pending(entries[..|entries| - 1], key) + if entries[|entries| - 1].key == key then entries[|entries| - 1].suppressed else 0
  }

  /** The suppressions that evictions discarded. */
  function Lost(trace: seq<Outcome>, key: Fingerprint): nat {
    if trace == [] then 0 else Lost(trace[..|trace| - 1], key) + Pending(trace[|trace| - 1].evicted, key)
  }

  lemma {:induction false} PendingConcat(a: seq<Entry>, b: seq<Entry>, key: Fingerprint)
    ensures Pending(a + b, key) == Pending(a, key) + Pending(b, key)
  {
    if b == [] {
      assert a + b == a;
    } else {
      assert (a + b)[..|a + b| - 1] == a + b[..|b| - 1];
      PendingConcat(a, b[..|b| - 1], key);
    }
  }

  lemma PendingOne(e: Entry, key: Fingerprint)
    ensures Pending([e], key) == if e.key == key then e.suppressed else 0
  {
  }

  lemma PendingWithout(entries: seq<Entry>, i: nat, key: Fingerprint)
    requires i < |entries|
    ensures Pending(entries, key) == Pending(Without(entries, i), key) + Pending([entries[i]], key)
  {
    var a, e, b := entries[..i], entries[i], entries[i + 1..];
    assert entries == a + ([e] + b);
    PendingConcat(a, [e] + b, key);
    PendingConcat([e], b, key);
    PendingConcat(a, b, key);
  }

  /** What an entry owes before and after a call, against what the call captures and reports. */
  lemma TouchedBalances(l: Limits, entries: seq<Entry>, key: Fingerprint, now: real)
    ensures var (entry, captured, reported, _) := Touched(l, entries, key, now);
            var i := Index(entries, key);
            && entry.key == key
            && (if i < |entries| then entries[i].suppressed else 0) + 1 == entry.suppressed + One(captured) + reported
  {
  }

  lemma PlacedPending(l: Limits, entries: seq<Entry>, call: Call, key: Fingerprint)
    ensures var (entry, captured, reported, _) := Touched(l, entries, call.key, call.now);
            Pending(entries, key) + One(call.key == key) ==
              Pending(Placed(l, entries, call.key, call.now), key) + (if call.key == key then One(captured) + reported else 0)
  {
    TouchedBalances(l, entries, call.key, call.now);
    var i, entry := Index(entries, call.key), Touched(l, entries, call.key, call.now).0;
    PendingConcat(Without(entries, i), [entry], key);
    PendingOne(entry, key);
    if i < |entries| {
      PendingWithout(entries, i, key);
      PendingOne(entries[i], key);
    }
  }

  lemma PendingSplit(all: seq<Entry>, n: nat, key: Fingerprint)
    requires n <= |all|
    ensures Pending(all, key) == Pending(all[..n], key) + Pending(all[n..], key)
  {
    PendingConcat(all[..n], all[n..], key);
    assert all[..n] + all[n..] == all;
  }

  /** One call is captured or suppressed, and what it reports or discards leaves the table. */
  lemma CallConserves(l: Limits, entries: seq<Entry>, call: Call, after: seq<Entry>, o: Outcome, key: Fingerprint)
    requires AfterCall(l, entries, call.key, call.now) == (after, o)
    ensures Pending(entries, key) + One(call.key == key) ==
            Pending(after, key) + Pending(o.evicted, key) + (if call.key == key then One(o.captured) + o.reported else 0)
  {
    PlacedPending(l, entries, call, key);
    PendingSplit(Placed(l, entries, call.key, call.now), |o.evicted|, key);
  }

  /** In every run the calls of a fingerprint are its captures, the suppressions reported with them, the
  suppressions still pending, and those lost by eviction; none are lost while it is never evicted. */
  lemma {:induction false} CallsConserved(l: Limits, calls: seq<Call>, key: Fingerprint)
    ensures var (entries, trace) := Run(l, calls);
            CallsOf(calls, key) == Captures(trace, key) + Reported(trace, key) + Pending(entries, key) + Lost(trace, key)
  {
    if calls != [] {
      var front, last := calls[..|calls| - 1], calls[|calls| - 1];
      CallsConserved(l, front, key);
      var (entries, trace) := Run(l, calls);
      CallConserves(l, Run(l, front).0, last, entries, trace[|trace| - 1], key);
      assert trace[..|trace| - 1] == Run(l, front).1;
    }
  }

  ghost predicate Evicts(o: Outcome, key: Fingerprint) {
    exists e :: e in o.evicted && e.key == key
  }

  ghost predicate NeverEvicted(trace: seq<Outcome>, key: Fingerprint) {
    forall o | o in trace :: !Evicts(o, key)
  }

  lemma NeverEvictedPrefix(trace: seq<Outcome>, key: Fingerprint)
    requires NeverEvicted(trace, key) && trace != []
    ensures NeverEvicted(trace[..|trace| - 1], key) && !Evicts(trace[|trace| - 1], key)
  {
  }

  lemma {:induction false} NothingPendingOf(entries: seq<Entry>, key: Fingerprint)
    requires forall e | e in entries :: e.key != key
    ensures Pending(entries, key) == 0
  {
    if entries != [] {
      assert entries[|entries| - 1] in entries;
      NothingPendingOf(entries[..|entries| - 1], key);
    }
  }

  lemma {:induction false} NothingLost(trace: seq<Outcome>, key: Fingerprint)
    requires NeverEvicted(trace, key)
    ensures Lost(trace, key) == 0
  {
    if trace != [] {
      NeverEvictedPrefix(trace, key);
      NothingLost(trace[..|trace| - 1], key);
      NothingPendingOf(trace[|trace| - 1].evicted, key);
    }
  }

  /** A fingerprint that is never evicted loses nothing: its calls are its captures, the suppressions reported
  with them and the suppressions still pending. */
  lemma NeverEvictedBalances(l: Limits, calls: seq<Call>, key: Fingerprint)
    requires NeverEvicted(Run(l, calls).1, key)
    ensures var (entries, trace) := Run(l, calls);
            CallsOf(calls, key) == Captures(trace, key) + Reported(trace, key) + Pending(entries, key)
  {
    CallsConserved(l, calls, key);
    NothingLost(Run(l, calls).1, key);
  }

  /** Without duplicates the pending suppressions of a fingerprint are those of its entry. */
  lemma PendingOfEntry(l: Limits, entries: seq<Entry>, key: Fingerprint)
    requires DistinctKeys(entries) && CountsBounded(l, entries)
    ensures var i := Index(entries, key);
            Pending(entries, key) == if i < |entries| then entries[i].suppressed else 0
  {
    var i := Index(entries, key);
    WithoutKept(l, entries, key);
    NothingPendingOf(Without(entries, i), key);
    if i < |entries| {
      PendingWithout(entries, i, key);
      PendingOne(entries[i], key);
    }
  }

  /** What a call decides, read off the entry of its fingerprint. */
  lemma OutcomeIs(l: Limits, entries: seq<Entry>, key: Fingerprint, now: real, after: seq<Entry>, o: Outcome)
    requires AfterCall(l, entries, key, now) == (after, o)
    ensures var i := Index(entries, key);
            && (o.opens <==> i == |entries| || now - entries[i].windowStart >= l.window as real)
            && (o.opens ==> o.captured && o.reported == if i < |entries| then entries[i].suppressed else 0)
            && (!o.opens ==> o.reported == 0)
  {
  }

  /** Suppressions do not stay pending: a call that opens a window is captured and reports all that were pending, and leaves
  none; a call inside a window reports none. */
  lemma OpeningReportsAll(l: Limits, entries: seq<Entry>, call: Call, after: seq<Entry>, o: Outcome)
    requires Positive(l) && Kept(l, entries) && AfterCall(l, entries, call.key, call.now) == (after, o)
    ensures o.opens ==> o.captured && o.reported == Pending(entries, call.key) && Pending(after, call.key) == 0
    ensures !o.opens ==> o.reported == 0
  {
    var pending := Pending(entries, call.key);
    assert pending == (if Index(entries, call.key) < |entries| then entries[Index(entries, call.key)].suppressed else 0) by {
      PendingOfEntry(l, entries, call.key);
    }
    OutcomeIs(l, entries, call.key, call.now, after, o);
    assert pending + 1 == Pending(after, call.key) + Pending(o.evicted, call.key) + One(o.captured) + o.reported by {
      CallConserves(l, entries, call, after, o, call.key);
    }
  }

  // ----- captures per window

  /** The captures since the window of a fingerprint was last opened. */
  function WindowCaptures(trace: seq<Outcome>, key: Fingerprint): nat {
    if trace == [] then 0
    else
      var front, last := trace[..|trace| - 1], trace[|trace| - 1];
      if last.key != key then WindowCaptures(front, key)
      else if last.opens then 1
      else WindowCaptures(front, key) + One(last.captured)
  }

  /** When that was. */
  function WindowOpenedAt(trace: seq<Outcome>, key: Fingerprint): real {
    if trace == [] then 0.0
    else
      var front, last := trace[..|trace| - 1], trace[|trace| - 1];
      if last.key == key && last.opens then last.now else WindowOpenedAt(front, key)
  }

  ghost predicate WindowOk(e: Entry, trace: seq<Outcome>) {
    e.count == WindowCaptures(trace, e.key) && e.windowStart == WindowOpenedAt(trace, e.key)
  }

  ghost predicate WindowsKept(entries: seq<Entry>, trace: seq<Outcome>) {
    forall i | 0 <= i < |entries| :: WindowOk(entries[i], trace)
  }

  lemma OtherWindow(e: Entry, trace: seq<Outcome>, o: Outcome)
    requires WindowOk(e, trace) && e.key != o.key
    ensures WindowOk(e, trace + [o])
  {
    assert (trace + [o])[..|trace|] == trace;
  }

  lemma TouchedWindow(l: Limits, entries: seq<Entry>, trace: seq<Outcome>, call: Call, o: Outcome)
    requires WindowsKept(entries, trace) && o == AfterCall(l, entries, call.key, call.now).1
    ensures WindowOk(Touched(l, entries, call.key, call.now).0, trace + [o])
  {
    assert (trace + [o])[..|trace|] == trace;
    var i := Index(entries, call.key);
    assert i < |entries| ==> WindowOk(entries[i], trace);
  }

  lemma WithoutWindows(entries: seq<Entry>, trace: seq<Outcome>, i: nat)
    requires WindowsKept(entries, trace) && i <= |entries|
    ensures WindowsKept(Without(entries, i), trace)
  {
  }

  lemma OtherWindows(entries: seq<Entry>, trace: seq<Outcome>, o: Outcome)
    requires WindowsKept(entries, trace) && forall j | 0 <= j < |entries| :: entries[j].key != o.key
    ensures WindowsKept(entries, trace + [o])
  {
    forall j | 0 <= j < |entries| ensures WindowOk(entries[j], trace + [o]) {
      OtherWindow(entries[j], trace, o);
    }
  }

  lemma WindowsOfSuffix(a: seq<Entry>, b: seq<Entry>, trace: seq<Outcome>)
    requires WindowsKept(a + b, trace)
    ensures WindowsKept(b, trace)
  {
    forall j | 0 <= j < |b| ensures WindowOk(b[j], trace) {
      assert b[j] == (a + b)[|a| + j];
    }
  }

  lemma CallKeepsWindows(l: Limits, entries: seq<Entry>, trace: seq<Outcome>, call: Call, after: seq<Entry>, o: Outcome)
    requires Positive(l) && Kept(l, entries) && WindowsKept(entries, trace)
    requires AfterCall(l, entries, call.key, call.now) == (after, o)
    ensures WindowsKept(after, trace + [o])
  {
    WithoutKept(l, entries, call.key);
    WithoutWindows(entries, trace, Index(entries, call.key));
    OtherWindows(Without(entries, Index(entries, call.key)), trace, o);
    TouchedWindow(l, entries, trace, call, o);
    EvictedAndKept(l, entries, call.key, call.now);
    WindowsOfSuffix(o.evicted, after, trace + [o]);
  }

  lemma {:induction false} RunKeepsWindows(l: Limits, calls: seq<Call>)
    requires Positive(l)
    ensures WindowsKept(Run(l, calls).0, Run(l, calls).1)
  {
    if calls != [] {
      var front := calls[..|calls| - 1];
      RunKept(l, front);
      RunKeepsWindows(l, front);
      RunLast(l, calls);
      var (after, trace) := Run(l, calls);
      CallKeepsWindows(l, Run(l, front).0, Run(l, front).1, calls[|calls| - 1], after, trace[|trace| - 1]);
      assert trace == Run(l, front).1 + [trace[|trace| - 1]];
    }
  }

  /** In every run at most max_events captures of a fingerprint fall into the window open at the end, and a
  call opens a new window only when the fingerprint is not in the table or its window is over. */
  lemma CapturesPerWindow(l: Limits, calls: seq<Call>, key: Fingerprint, now: real)
    requires Positive(l)
    ensures var (entries, trace) := Run(l, calls);
            var known, o := Index(entries, key) < |entries|, AfterCall(l, entries, key, now).1;
            && (known ==> 1 <= WindowCaptures(trace, key) <= l.maxEvents)
            && (o.opens <==> !known || now - WindowOpenedAt(trace, key) >= l.window as real)
            && (o.captured <==> o.opens || WindowCaptures(trace, key) < l.maxEvents)
  {
    RunKept(l, calls);
    RunKeepsWindows(l, calls);
    var (entries, trace) := Run(l, calls);
    var i := Index(entries, key);
    if i < |entries| {
      assert WindowOk(entries[i], trace);
    }
  }

  // ----- captures in any interval

  ghost predicate Monotone(calls: seq<Call>) {
    forall i, j | 0 <= i < j < |calls| :: calls[i].now <= calls[j].now
  }

  /** The captures of a fingerprint from an instant on. */
  function CapturesSince(trace: seq<Outcome>, key: Fingerprint, from: real): nat {
    if trace == [] then 0
    else
      var last := trace[|trace| - 1];
      CapturesSince(trace[..|trace| - 1], key, from) + One(last.key == key && last.captured && last.now >= from)
  }

  ghost predicate Knows(entries: seq<Entry>, key: Fingerprint) {
    exists e :: e in entries && e.key == key
  }

  lemma KnowsSplit(a: seq<Entry>, b: seq<Entry>, key: Fingerprint)
    ensures Knows(a + b, key) <==> Knows(a, key) || Knows(b, key)
  {
  }

  lemma PlacedKnows(l: Limits, entries: seq<Entry>, call: Call, key: Fingerprint)
    requires Knows(entries, key) || call.key == key
    ensures Knows(Placed(l, entries, call.key, call.now), key)
  {
  }

  /** A call forgets a fingerprint only by evicting it. */
  lemma CallRemembers(l: Limits, entries: seq<Entry>, call: Call, after: seq<Entry>, o: Outcome, key: Fingerprint)
    requires AfterCall(l, entries, call.key, call.now) == (after, o) && !Evicts(o, key)
    requires Knows(entries, key) || call.key == key
    ensures Knows(after, key)
  {
    PlacedKnows(l, entries, call, key);
    EvictedAndKept(l, entries, call.key, call.now);
    KnowsSplit(o.evicted, after, key);
  }

  lemma {:induction false} CalledIsKnown(l: Limits, calls: seq<Call>, key: Fingerprint)
    requires NeverEvicted(Run(l, calls).1, key) && CallsOf(calls, key) > 0
    ensures Knows(Run(l, calls).0, key)
  {
    var front, last := calls[..|calls| - 1], calls[|calls| - 1];
    if last.key != key {
      NeverEvictedFront(l, calls, key);
      CalledIsKnown(l, front, key);
    }
    RunLast(l, calls);
    var (after, trace) := Run(l, calls);
    NeverEvictedPrefix(trace, key);
    CallRemembers(l, Run(l, front).0, last, after, trace[|trace| - 1], key);
  }

  lemma RunLast(l: Limits, calls: seq<Call>)
    requires calls != []
    ensures var (before, front) := Run(l, calls[..|calls| - 1]);
            var (after, trace) := Run(l, calls);
            && trace != [] && trace[..|trace| - 1] == front
            && AfterCall(l, before, calls[|calls| - 1].key, calls[|calls| - 1].now) == (after, trace[|trace| - 1])
  {
  }

  lemma NeverEvictedFront(l: Limits, calls: seq<Call>, key: Fingerprint)
    requires calls != [] && NeverEvicted(Run(l, calls).1, key)
    ensures NeverEvicted(Run(l, calls[..|calls| - 1]).1, key)
  {
  }

  lemma {:induction false} NoneSince(l: Limits, calls: seq<Call>, key: Fingerprint, from: real)
    requires forall c | c in calls :: c.now < from
    ensures CapturesSince(Run(l, calls).1, key, from) == 0
  {
    if calls != [] {
      assert calls[|calls| - 1] in calls;
      NoneSince(l, calls[..|calls| - 1], key, from);
      var trace := Run(l, calls).1;
      assert trace[..|trace| - 1] == Run(l, calls[..|calls| - 1]).1;
    }
  }

  /** After `n` calls: a window that opened before the interval accounts for all captures in it, and its first one
  lies before the interval; a window that opened inside the interval follows one such window at most. */
  ghost predicate IntervalOk(l: Limits, n: nat, trace: seq<Outcome>, key: Fingerprint, from: real) {
    CapturesSince(trace, key, from) <=
      if n == 0 then 0
      else WindowCaptures(trace, key) - 1 + if WindowOpenedAt(trace, key) < from then 0 else l.maxEvents
  }

  lemma KnownIndex(entries: seq<Entry>, key: Fingerprint)
    requires Knows(entries, key)
    ensures Index(entries, key) < |entries|
  {
  }

  /** The arithmetic of one more call: the numbers are those of `IntervalOk` and `CapturesPerWindow`. */
  lemma IntervalNumbers(
    l: Limits, from: real, now: real, calls: nat, since: nat, captures: nat, start: real, known: bool, opens: bool, captured: bool)
    requires Positive(l) && now < from + l.window as real && (now < from ==> since == 0) && (calls > 0 ==> known)
    requires since <= if calls == 0 then 0 else captures - 1 + if start < from then 0 else l.maxEvents
    requires known ==> 1 <= captures <= l.maxEvents
    requires opens <==> !known || now - start >= l.window as real
    requires captured <==> opens || captures < l.maxEvents
    ensures since + One(captured && now >= from) <=
            (if opens then 1 else captures + One(captured)) - 1 + if (if opens then now else start) < from then 0 else l.maxEvents
  {
  }

  /** What the accounts of a fingerprint become when it is called once more. */
  lemma TraceGrows(trace: seq<Outcome>, o: Outcome, key: Fingerprint, from: real)
    requires o.key == key
    ensures CapturesSince(trace + [o], key, from) == CapturesSince(trace, key, from) + One(o.captured && o.now >= from)
    ensures WindowCaptures(trace + [o], key) == if o.opens then 1 else WindowCaptures(trace, key) + One(o.captured)
    ensures WindowOpenedAt(trace + [o], key) == if o.opens then o.now else WindowOpenedAt(trace, key)
  {
    assert (trace + [o])[..|trace|] == trace;
  }

  lemma OtherTrace(trace: seq<Outcome>, o: Outcome, key: Fingerprint, from: real)
    requires o.key != key
    ensures CapturesSince(trace + [o], key, from) == CapturesSince(trace, key, from)
    ensures WindowCaptures(trace + [o], key) == WindowCaptures(trace, key)
    ensures WindowOpenedAt(trace + [o], key) == WindowOpenedAt(trace, key)
  {
    assert (trace + [o])[..|trace|] == trace;
  }

  lemma IntervalStep(l: Limits, calls: seq<Call>, entries: seq<Entry>, trace: seq<Outcome>, now: real, o: Outcome, key: Fingerprint, from: real)
    requires Positive(l) && Run(l, calls) == (entries, trace) && o == AfterCall(l, entries, key, now).1
    requires IntervalOk(l, CallsOf(calls, key), trace, key, from) && NeverEvicted(trace, key)
    requires now < from + l.window as real && forall c | c in calls :: c.now <= now
    ensures IntervalOk(l, CallsOf(calls, key) + 1, trace + [o], key, from)
  {
    CapturesPerWindow(l, calls, key, now);
    if now < from { NoneSince(l, calls, key, from); }
    if CallsOf(calls, key) > 0 {
      CalledIsKnown(l, calls, key);
      KnownIndex(entries, key);
    }
    IntervalNumbers(l, from, now, CallsOf(calls, key), CapturesSince(trace, key, from), WindowCaptures(trace, key),
                    WindowOpenedAt(trace, key), Index(entries, key) < |entries|, o.opens, o.captured);
    TraceGrows(trace, o, key, from);
  }

  lemma EarlierCalls(calls: seq<Call>)
    requires Monotone(calls) && calls != []
    ensures var front, last := calls[..|calls| - 1], calls[|calls| - 1];
            Monotone(front) && forall c | c in front :: c.now <= last.now
  {
  }

  lemma {:induction false} IntervalAlways(l: Limits, calls: seq<Call>, key: Fingerprint, from: real)
    requires Positive(l) && Monotone(calls) && NeverEvicted(Run(l, calls).1, key)
    requires calls != [] ==> calls[|calls| - 1].now < from + l.window as real
    ensures IntervalOk(l, CallsOf(calls, key), Run(l, calls).1, key, from)
  {
    if calls != [] {
      var front, last := calls[..|calls| - 1], calls[|calls| - 1];
      EarlierCalls(calls);
      NeverEvictedFront(l, calls, key);
      IntervalAlways(l, front, key, from);
      RunLast(l, calls);
      var (entries, trace) := Run(l, front);
      var o := AfterCall(l, entries, last.key, last.now).1;
      assert Run(l, calls).1 == trace + [o];
      if last.key == key {
        IntervalStep(l, front, entries, trace, last.now, o, key, from);
      } else {
        OtherTrace(trace, o, key, from);
      }
    }
  }

  /** A run on a nondecreasing clock that never evicts the fingerprint and ends within a window length of `from`. */
  ghost predicate WithinInterval(l: Limits, calls: seq<Call>, key: Fingerprint, from: real) {
    && Monotone(calls) && NeverEvicted(Run(l, calls).1, key)
    && (calls != [] ==> calls[|calls| - 1].now < from + l.window as real)
  }

  /** However the windows fall, on a nondecreasing clock a fingerprint that is never evicted is captured at most
  2 * max_events - 1 times in any interval of one window length. */
  lemma CapturesInAnyInterval(l: Limits, calls: seq<Call>, key: Fingerprint, from: real)
    requires Positive(l) && WithinInterval(l, calls, key, from)
    ensures CapturesSince(Run(l, calls).1, key, from) <= 2 * l.maxEvents - 1
  {
    IntervalAlways(l, calls, key, from);
    if CallsOf(calls, key) > 0 {
      CalledIsKnown(l, calls, key);
      KnownIndex(Run(l, calls).0, key);
      CapturesPerWindow(l, calls, key, 0.0);
    }
  }

  // ----- the bound is reached

  /** Where a run of calls with one fingerprint stands: its outcomes, its last call and its only entry. */
  datatype Standing = Standing(trace: seq<Outcome>, last: real, start: real, count: nat)

  ghost predicate Stands(l: Limits, calls: seq<Call>, key: Fingerprint, at: Standing) {
    Run(l, calls) == ([Entry(key, at.start, at.count, 0)], at.trace) && EndsAt(calls, at.last)
  }

  ghost predicate EndsAt(calls: seq<Call>, last: real) {
    Monotone(calls) && calls != [] && calls[|calls| - 1].now == last
  }

  ghost predicate Accounts(trace: seq<Outcome>, key: Fingerprint, from: real, captures: nat) {
    NeverEvicted(trace, key) && CapturesSince(trace, key, from) == captures
  }

  /** A call that opens the first window, or the next one, or is captured in the open one. */
  lemma OnlyEntryCall(l: Limits, entries: seq<Entry>, key: Fingerprint, now: real, after: seq<Entry>, o: Outcome)
    requires Positive(l) && AfterCall(l, entries, key, now) == (after, o)
    requires entries == [] || (|entries| == 1 && entries[0].key == key && entries[0].suppressed == 0)
    requires entries == [] || now - entries[0].windowStart >= l.window as real || entries[0].count < l.maxEvents
    ensures o.captured && o.evicted == [] && o.key == key && o.now == now
    ensures after == if entries == [] || now - entries[0].windowStart >= l.window as real
                     then [Entry(key, now, 1, 0)] else [entries[0].(count := entries[0].count + 1)]
  {
    EvictedAndKept(l, entries, key, now);
  }

  lemma AccountsGrow(trace: seq<Outcome>, o: Outcome, key: Fingerprint, from: real, captures: nat)
    requires o.key == key && o.captured && o.evicted == [] && Accounts(trace, key, from, captures)
    ensures Accounts(trace + [o], key, from, captures + One(o.now >= from))
  {
    assert (trace + [o])[..|trace|] == trace;
  }

  lemma RunGrows(l: Limits, calls: seq<Call>, call: Call, entries: seq<Entry>, trace: seq<Outcome>, after: seq<Entry>, o: Outcome)
    requires Run(l, calls) == (entries, trace) && AfterCall(l, entries, call.key, call.now) == (after, o)
    ensures Run(l, calls + [call]) == (after, trace + [o])
  {
    assert (calls + [call])[..|calls|] == calls;
  }

  lemma OnlyEntryRun(l: Limits, calls: seq<Call>, entries: seq<Entry>, trace: seq<Outcome>, key: Fingerprint, now: real)
      returns (after: seq<Entry>, o: Outcome)
    requires Positive(l) && Run(l, calls) == (entries, trace)
    requires entries == [] || (|entries| == 1 && entries[0].key == key && entries[0].suppressed == 0)
    requires entries == [] || now - entries[0].windowStart >= l.window as real || entries[0].count < l.maxEvents
    ensures Run(l, calls + [Call(key, now)]) == (after, trace + [o])
    ensures o.captured && o.evicted == [] && o.key == key && o.now == now
    ensures after == if entries == [] || now - entries[0].windowStart >= l.window as real
                     then [Entry(key, now, 1, 0)] else [entries[0].(count := entries[0].count + 1)]
  {
    var next := AfterCall(l, entries, key, now);
    after, o := next.0, next.1;
    OnlyEntryCall(l, entries, key, now, after, o);
    RunGrows(l, calls, Call(key, now), entries, trace, after, o);
  }

  lemma EndGrows(calls: seq<Call>, last: real, call: Call)
    requires EndsAt(calls, last) && last <= call.now
    ensures EndsAt(calls + [call], call.now)
  {
  }

  /** One more call of the fingerprint, on the run and on its accounts. */
  lemma NextRun(l: Limits, calls: seq<Call>, entries: seq<Entry>, trace: seq<Outcome>, key: Fingerprint, from: real, captures: nat, now: real)
      returns (calls': seq<Call>, trace': seq<Outcome>, e: Entry)
    requires Positive(l) && Run(l, calls) == (entries, trace) && Accounts(trace, key, from, captures)
    requires entries == [] || (|entries| == 1 && entries[0].key == key && entries[0].suppressed == 0)
    requires entries == [] || now - entries[0].windowStart >= l.window as real || entries[0].count < l.maxEvents
    ensures calls' == calls + [Call(key, now)] && Run(l, calls') == ([e], trace') && Accounts(trace', key, from, captures + One(now >= from))
    ensures e == if entries == [] || now - entries[0].windowStart >= l.window as real
                 then Entry(key, now, 1, 0) else entries[0].(count := entries[0].count + 1)
  {
    var after, o := OnlyEntryRun(l, calls, entries, trace, key, now);
    AccountsGrow(trace, o, key, from, captures);
    calls', trace', e := calls + [Call(key, now)], trace + [o], after[0];
  }

  lemma FirstCall(l: Limits, key: Fingerprint, now: real, from: real) returns (calls: seq<Call>, at: Standing)
    requires Positive(l) && now < from
    ensures Stands(l, calls, key, at) && Accounts(at.trace, key, from, 0) && at == Standing(at.trace, now, now, 1)
  {
    NoAccounts(key, from);
    var trace, e;
    calls, trace, e := NextRun(l, [], [], [], key, from, 0, now);
    at := Standing(trace, now, now, 1);
    assert EndsAt(calls, now);
  }

  lemma NoAccounts(key: Fingerprint, from: real)
    ensures Accounts([], key, from, 0)
  {
  }

  /** What one more captured call makes of a standing. */
  ghost predicate Follows(l: Limits, at: Standing, now: real, at': Standing) {
    var opens := now - at.start >= l.window as real;
    at' == Standing(at'.trace, now, if opens then now else at.start, if opens then 1 else at.count + 1)
  }

  lemma NextCall(l: Limits, calls: seq<Call>, key: Fingerprint, from: real, at: Standing, captures: nat, now: real)
      returns (calls': seq<Call>, at': Standing)
    requires Positive(l) && Stands(l, calls, key, at) && Accounts(at.trace, key, from, captures) && at.last <= now
    requires now - at.start >= l.window as real || at.count < l.maxEvents
    ensures Stands(l, calls', key, at') && Follows(l, at, now, at') && Accounts(at'.trace, key, from, captures + One(now >= from))
  {
    var trace, e;
    calls', trace, e := NextRun(l, calls, [Entry(key, at.start, at.count, 0)], at.trace, key, from, captures, now);
    at' := Standing(trace, now, e.windowStart, e.count);
    EndGrows(calls, at.last, Call(key, now));
  }

  /** `n` captured calls at one instant of the open window. */
  lemma {:induction false} Burst(l: Limits, calls: seq<Call>, key: Fingerprint, from: real, at: Standing, captures: nat, now: real, n: nat)
      returns (calls': seq<Call>, at': Standing)
    requires Positive(l) && Stands(l, calls, key, at) && Accounts(at.trace, key, from, captures) && at.last <= now && from <= now
    requires now - at.start < l.window as real && at.count + n <= l.maxEvents
    ensures Stands(l, calls', key, at') && Accounts(at'.trace, key, from, captures + n)
    ensures at'.start == at.start && at'.count == at.count + n && at.last <= at'.last <= now
    decreases n
  {
    calls', at' := calls, at;
    if n > 0 {
      calls', at' := NextCall(l, calls, key, from, at, captures, now);
      calls', at' := Burst(l, calls', key, from, at', captures + 1, now, n - 1);
    }
  }

  /** Late in one window and early in the next: a run that reaches the bound, for all limits. */
  lemma BoundIsReached(l: Limits, key: Fingerprint) returns (calls: seq<Call>, from: real)
    requires Positive(l)
    ensures WithinInterval(l, calls, key, from) && CapturesSince(Run(l, calls).1, key, from) == 2 * l.maxEvents - 1
  {
    var at, next, m := Standing([], 0.0, 0.0, 0), l.window as real, l.maxEvents;
    from := next - 0.5;
    calls, at := FirstCall(l, key, 0.0, from);
    calls, at := Burst(l, calls, key, from, at, 0, from, m - 1);
    calls, at := NextCall(l, calls, key, from, at, m - 1, next);
    calls, at := Burst(l, calls, key, from, at, m, next, m - 1);
  }

  ghost predicate LimitPerInterval(l: Limits) {
    forall calls, key, from | WithinInterval(l, calls, key, from) :: CapturesSince(Run(l, calls).1, key, from) <= l.maxEvents
  }

  /** The limit of max_events holds for every interval of one window length exactly when max_events is 1. */
  lemma LimitPerIntervalExactlyWhen(l: Limits)
    requires Positive(l)
    ensures LimitPerInterval(l) <==> l.maxEvents == 1
  {
    if l.maxEvents == 1 {
      forall calls, key, from | WithinInterval(l, calls, key, from) ensures CapturesSince(Run(l, calls).1, key, from) <= l.maxEvents {
        CapturesInAnyInterval(l, calls, key, from);
      }
    } else {
      var calls, from := BoundIsReached(l, "");
    }
  }

  // ----- eviction order

  /** The position of the last call of a key, counted from 1; 0 when there is none. */
  function LastTouch(trace: seq<Outcome>, key: Fingerprint): (n: nat)
    ensures n <= |trace|
  {
    if trace == [] then 0
    else if trace[|trace| - 1].key == key then |trace|
    else LastTouch(trace[..|trace| - 1], key)
  }

  ghost predicate OrderedByTouch(entries: seq<Entry>, trace: seq<Outcome>) {
    forall i, j | 0 <= i < j < |entries| :: LastTouch(trace, entries[i].key) < LastTouch(trace, entries[j].key)
  }

  lemma WithoutOrdered(entries: seq<Entry>, trace: seq<Outcome>, i: nat)
    requires OrderedByTouch(entries, trace) && i <= |entries|
    ensures OrderedByTouch(Without(entries, i), trace)
  {
  }

  /** The key of the last outcome comes behind all others. */
  lemma LastIsNewest(entries: seq<Entry>, trace: seq<Outcome>, o: Outcome, entry: Entry)
    requires OrderedByTouch(entries, trace) && entry.key == o.key
    requires forall j | 0 <= j < |entries| :: entries[j].key != o.key
    ensures OrderedByTouch(entries + [entry], trace + [o])
  {
  }

  lemma SuffixOrdered(all: seq<Entry>, trace: seq<Outcome>, n: nat)
    requires OrderedByTouch(all, trace) && n <= |all|
    ensures OrderedByTouch(all[n..], trace)
  {
  }

  lemma CallKeepsOrder(l: Limits, entries: seq<Entry>, trace: seq<Outcome>, call: Call)
    requires Positive(l) && Kept(l, entries) && OrderedByTouch(entries, trace)
    ensures var (after, o) := AfterCall(l, entries, call.key, call.now); OrderedByTouch(after, trace + [o])
  {
    var (after, o) := AfterCall(l, entries, call.key, call.now);
    WithoutOrdered(entries, trace, Index(entries, call.key));
    WithoutKept(l, entries, call.key);
    TouchedBalances(l, entries, call.key, call.now);
    LastIsNewest(Without(entries, Index(entries, call.key)), trace, o, Touched(l, entries, call.key, call.now).0);
    SuffixOrdered(Placed(l, entries, call.key, call.now), trace + [o], |o.evicted|);
  }

  lemma {:induction false} RunKeepsOrder(l: Limits, calls: seq<Call>)
    requires Positive(l)
    ensures OrderedByTouch(Run(l, calls).0, Run(l, calls).1)
  {
    if calls != [] {
      var front := calls[..|calls| - 1];
      RunKept(l, front);
      RunKeepsOrder(l, front);
      CallKeepsOrder(l, Run(l, front).0, Run(l, front).1, calls[|calls| - 1]);
    }
  }

  /** The table never exceeds its maximum, and what a call evicts is the least recently touched entry. */
  lemma EvictsLeastRecentlyTouched(l: Limits, calls: seq<Call>, next: Call, e: Entry, other: Entry)
    requires Positive(l)
    requires e in AfterCall(l, Run(l, calls).0, next.key, next.now).1.evicted && other in Run(l, calls).0 && other != e
    ensures |Run(l, calls).0| == l.maxKeys && e in Run(l, calls).0
    ensures LastTouch(Run(l, calls).1, e.key) < LastTouch(Run(l, calls).1, other.key)
  {
    RunKept(l, calls);
    RunKeepsOrder(l, calls);
    var (entries, trace) := Run(l, calls);
    CallEvictsFront(l, entries, next.key, next.now);
    var j :| 0 <= j < |entries| && entries[j] == other;
    assert e == entries[0] && j != 0;
  }
}
