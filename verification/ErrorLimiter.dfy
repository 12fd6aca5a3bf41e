/** The per-fingerprint rate limiter of core/error_tracking.py. Instants are real seconds. */
module ErrorLimiter {

  type Fingerprint = string

  datatype Entry = Entry(key: Fingerprint, windowStart: real, count: nat, suppressed: nat)

  /** `_rate_limit_config`. */
  datatype Limits = Limits(window: int, maxEvents: int, maxKeys: int)

  predicate Positive(l: Limits) {
    l.window > 0 && l.maxEvents > 0 && l.maxKeys > 0
  }

  /** What one call decided; `evicted` are the entries it pushed out. */
  datatype Outcome = Outcome(
    key: Fingerprint, now: real, captured: bool, reported: nat, opens: bool, evicted: seq<Entry>)

  // ----- one call

  function Index(entries: seq<Entry>, key: Fingerprint): (i: nat)
    ensures i <= |entries| && (i < |entries| ==> entries[i].key == key)
    ensures forall j | 0 <= j < i :: entries[j].key != key
  {
    if entries == [] || entries[0].key == key then 0 else Index(entries[1..], key) + 1
  }

  function Without(entries: seq<Entry>, i: nat): seq<Entry>
    requires i <= |entries|
  {
    if i == |entries| then entries else entries[..i] + entries[i + 1..]
  }

  /** How many entries are too many; a negative maximum leaves none. */
  function Excess(l: Limits, entries: seq<Entry>): (n: nat)
    ensures n <= |entries|
  {
    if l.maxKeys < 0 then |entries| else if |entries| > l.maxKeys then |entries| - l.maxKeys else 0
  }

  /** The call replaces or adds the entry of its key at the end of the order. */
  function Touched(l: Limits, entries: seq<Entry>, key: Fingerprint, now: real): (Entry, bool, nat, bool) {
    var i := Index(entries, key);
    if i == |entries| then (Entry(key, now, 1, 0), true, 0, true)
    else
      var e := entries[i];
      if now - e.windowStart >= l.window as real then (Entry(key, now, 1, 0), true, e.suppressed, true)
      else if e.count < l.maxEvents then (e.(count := e.count + 1), true, 0, false)
      else (e.(suppressed := e.suppressed + 1), false, 0, false)
  }

  /** The table before anything is evicted. */
  function Placed(l: Limits, entries: seq<Entry>, key: Fingerprint, now: real): seq<Entry> {
    Without(entries, Index(entries, key)) + [Touched(l, entries, key, now).0]
  }

  function AfterCall(l: Limits, entries: seq<Entry>, key: Fingerprint, now: real): (seq<Entry>, Outcome) {
    var (_, captured, reported, opens) := Touched(l, entries, key, now);
    var all := Placed(l, entries, key, now);
    var n := if opens then Excess(l, all) else 0;
    (all[n..], Outcome(key, now, captured, reported, opens, all[..n]))
  }

  lemma EvictedAndKept(l: Limits, entries: seq<Entry>, key: Fingerprint, now: real)
    ensures Placed(l, entries, key, now) == AfterCall(l, entries, key, now).1.evicted + AfterCall(l, entries, key, now).0
  {
  }

  // ----- what every call keeps

  ghost predicate DistinctKeys(entries: seq<Entry>) {
    forall i, j | 0 <= i < j < |entries| :: entries[i].key != entries[j].key
  }

  ghost predicate CountsBounded(l: Limits, entries: seq<Entry>) {
    forall i | 0 <= i < |entries| :: 1 <= entries[i].count <= l.maxEvents
  }

  ghost predicate Kept(l: Limits, entries: seq<Entry>) {
    |entries| <= l.maxKeys && DistinctKeys(entries) && CountsBounded(l, entries)
  }

  lemma WithoutKept(l: Limits, entries: seq<Entry>, key: Fingerprint)
    requires DistinctKeys(entries) && CountsBounded(l, entries)
    ensures var rest := Without(entries, Index(entries, key));
            DistinctKeys(rest) && CountsBounded(l, rest) && forall j | 0 <= j < |rest| :: rest[j].key != key
  {
    var i := Index(entries, key);
    var rest := Without(entries, i);
    forall j | 0 <= j < |rest| ensures rest[j].key != key && 1 <= rest[j].count <= l.maxEvents {
      assert rest[j] == if j < i then entries[j] else entries[j + 1];
    }
    forall j, k | 0 <= j < k < |rest| ensures rest[j].key != rest[k].key {
      assert rest[j] == if j < i then entries[j] else entries[j + 1];
      assert rest[k] == if k < i then entries[k] else entries[k + 1];
    }
  }

  lemma PlacedKept(l: Limits, entries: seq<Entry>, key: Fingerprint, now: real)
    requires Positive(l) && Kept(l, entries)
    ensures var all := Placed(l, entries, key, now);
            && DistinctKeys(all) && CountsBounded(l, all) && all != [] && all[|all| - 1].key == key
            && |all| == |entries| + (if Index(entries, key) == |entries| then 1 else 0)
  {
    WithoutKept(l, entries, key);
  }

  lemma SuffixKept(l: Limits, all: seq<Entry>, n: nat)
    requires DistinctKeys(all) && CountsBounded(l, all) && n <= |all|
    ensures DistinctKeys(all[n..]) && CountsBounded(l, all[n..])
  {
  }

  /** Every call keeps the table within its bound, with the key it touched at the end of the order. */
  lemma CallKeeps(l: Limits, entries: seq<Entry>, key: Fingerprint, now: real)
    requires Positive(l) && Kept(l, entries)
    ensures var after := AfterCall(l, entries, key, now).0;
            Kept(l, after) && after != [] && after[|after| - 1].key == key
  {
    PlacedKept(l, entries, key, now);
    var all := Placed(l, entries, key, now);
    var n := if Touched(l, entries, key, now).3 then Excess(l, all) else 0;
    SuffixKept(l, all, n);
  }

  /** Only a new key in a full table evicts, and it evicts exactly the front entry. */
  lemma CallEvictsFront(l: Limits, entries: seq<Entry>, key: Fingerprint, now: real)
    requires Positive(l) && Kept(l, entries)
    ensures var evicted := AfterCall(l, entries, key, now).1.evicted;
            evicted == if Index(entries, key) == |entries| && |entries| == l.maxKeys then [entries[0]] else []
  {
  }

  /** `while len(state) > max: popitem(last=False)`, which raises when the table is empty. */
  method Trim(l: Limits, entries: seq<Entry>) returns (kept: seq<Entry>, raised: bool)
    ensures kept == entries[Excess(l, entries)..]
    ensures raised <==> l.maxKeys < 0
  {
    kept, raised := entries, false;
    while |kept| > l.maxKeys && !raised
      invariant |kept| <= |entries| && kept == entries[|entries| - |kept|..]
      invariant |entries| - |kept| <= Excess(l, entries)
      invariant raised ==> kept == [] && l.maxKeys < 0
      decreases |kept|, !raised
    {
      if kept == [] { raised := true; } else { kept := kept[1..]; }
    }
  }

  class Limiter {
    var entries: seq<Entry>
    ghost var trace: seq<Outcome>

    constructor ()
      ensures entries == [] && trace == []
    {
      entries, trace := [], [];
    }

    /** `_should_capture_fingerprint`; a negative maximum of keys empties the table and raises KeyError whenever a
    window opens. */
    method ShouldCapture(l: Limits, key: Fingerprint, now: real) returns (captured: bool, reported: nat, raised: bool)
      modifies this
      ensures l.window <= 0 || l.maxEvents <= 0 ==>
                captured && reported == 0 && !raised && entries == old(entries) && trace == old(trace)
      ensures l.window > 0 && l.maxEvents > 0 ==>
                var (after, o) := AfterCall(l, old(entries), key, now);
                && entries == after && trace == old(trace) + [o] && (raised <==> o.opens && l.maxKeys < 0)
                && (!raised ==> captured == o.captured && reported == o.reported)
    {
      captured, reported, raised := true, 0, false;
      if l.window <= 0 || l.maxEvents <= 0 { return; }
      ghost var o := AfterCall(l, entries, key, now).1;
      trace := trace + [o];
      entries, captured, reported, raised := Touch(l, entries, key, now);
    }
  }

  /** The part under the lock, on the table. */
  method Touch(l: Limits, entries: seq<Entry>, key: Fingerprint, now: real)
    returns (after: seq<Entry>, captured: bool, reported: nat, raised: bool)
    ensures var (table, o) := AfterCall(l, entries, key, now);
            && after == table && (raised <==> o.opens && l.maxKeys < 0) && captured == o.captured && reported == o.reported
  {
    captured, reported, raised := true, 0, false;
    var i := Index(entries, key);
    if i == |entries| || now - entries[i].windowStart >= l.window as real {
      reported := if i < |entries| then entries[i].suppressed else 0;
      after, raised := Trim(l, Without(entries, i) + [Entry(key, now, 1, 0)]);
    } else if entries[i].count < l.maxEvents {
      after := Without(entries, i) + [entries[i].(count := entries[i].count + 1)];
    } else {
      after := Without(entries, i) + [entries[i].(suppressed := entries[i].suppressed + 1)];
      captured := false;
    }
  }
}
