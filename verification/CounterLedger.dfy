/** The producer-side ledger of counter events: `_record_local_user_counter_event` (core/events.py) and
`build_user_counter_event` (core/user_counter_sync.py). Instants are integers. */
module CounterLedger {
  import opened Wrappers

  datatype Kind = Increment | Reset

  datatype Event = Event(kind: Kind, epoch: int, occurredAt: int)

  datatype Receipt = Receipt(user: int, event: Event)

  /** The resets of a user, in the order of their insertion. */
  function Resets(rows: seq<Receipt>, user: int): seq<Event> {
    if rows == [] then []
    else
      var front, last := Resets(rows[..|rows| - 1], user), rows[|rows| - 1];
      if last.user == user && last.event.kind == Reset then front + [last.event] else front
  }

  /** An event of the highest epoch: `ORDER BY event_epoch DESC LIMIT 1`. */
  function Highest(events: seq<Event>): (r: Option<Event>)
    ensures r.None? <==> events == []
    ensures r.Some? ==> r.value in events && forall e | e in events :: e.epoch <= r.value.epoch
  {
    if events == [] then None
    else
      var front, last := Highest(events[..|events| - 1]), events[|events| - 1];
      assert forall e | e in events :: e in events[..|events| - 1] || e == last;
      if front.Some? && front.value.epoch >= last.epoch then front else Some(last)
  }

  /** The checks before the ledger row is inserted. */
  predicate Accepts(rows: seq<Receipt>, user: int, e: Event) {
    e.kind == Increment ||
    (var latest := Highest(Resets(rows, user));
     && (if e.epoch - 1 == 1 then latest.None? else latest.Some? && latest.value.epoch == e.epoch - 1)
     && (latest.Some? ==> e.occurredAt > latest.value.occurredAt))
  }

  /** Resets numbered 2, 3, ... without gap or repetition, at strictly increasing instants. */
  ghost predicate InSequence(events: seq<Event>) {
    && (forall i | 0 <= i < |events| :: events[i].epoch == i + 2)
    && (forall i, j | 0 <= i < j < |events| :: events[i].occurredAt < events[j].occurredAt)
  }

  ghost predicate LedgerKept(rows: seq<Receipt>) {
    forall user: int :: InSequence(Resets(rows, user))
  }

  /** The event that continues a sequence. */
  predicate IsNext(events: seq<Event>, e: Event) {
    e.epoch == |events| + 2 && (events == [] || e.occurredAt > events[|events| - 1].occurredAt)
  }

  lemma NextContinues(events: seq<Event>, e: Event)
    requires InSequence(events) && IsNext(events, e)
    ensures InSequence(events + [e])
  {
  }

  lemma AcceptedIsNext(rows: seq<Receipt>, user: int, e: Event)
    requires e.kind == Reset && InSequence(Resets(rows, user))
    ensures Accepts(rows, user, e) <==> IsNext(Resets(rows, user), e)
  {
  }

  lemma RecordKeepsSequence(rows: seq<Receipt>, user: int, e: Event, other: int)
    requires InSequence(Resets(rows, other)) && Accepts(rows, user, e)
    ensures InSequence(Resets(rows + [Receipt(user, e)], other))
  {
    var rows' := rows + [Receipt(user, e)];
    assert rows'[..|rows'| - 1] == rows;
    if user == other && e.kind == Reset {
      AcceptedIsNext(rows, user, e);
      NextContinues(Resets(rows, user), e);
    }
  }

  /** An earlier ledger has a prefix of the resets. */
  lemma {:induction false} ResetsOfPrefix(rows: seq<Receipt>, n: nat, user: int)
    requires n <= |rows|
    ensures Resets(rows[..n], user) <= Resets(rows, user)
  {
    if n < |rows| {
      assert rows[..|rows| - 1][..n] == rows[..n];
      ResetsOfPrefix(rows[..|rows| - 1], n, user);
    } else {
      assert rows[..n] == rows;
    }
  }

  /** The answer for a user does not depend on the rows of others, so the users of one flush do not disturb each other. */
  lemma OthersDoNotMatter(rows: seq<Receipt>, other: Receipt, user: int, e: Event)
    requires other.user != user
    ensures Accepts(rows + [other], user, e) <==> Accepts(rows, user, e)
  {
    assert (rows + [other])[..|rows|] == rows;
  }

  class Ledger {
    var rows: seq<Receipt>

    constructor ()
      ensures rows == [] && LedgerKept(rows)
    {
      rows := [];
    }

    /** `_record_local_user_counter_event`; false stands for InvalidUserCounterMutation. */
    method RecordLocalEvent(user: int, e: Event) returns (ok: bool)
      requires LedgerKept(rows)
      modifies this
      ensures ok <==> Accepts(old(rows), user, e)
      ensures rows == if ok then old(rows) + [Receipt(user, e)] else old(rows)
      ensures LedgerKept(rows)
    {
      if e.kind == Reset {
        var latest := Highest(Resets(rows, user));
        var expectedPrevious := e.epoch - 1;
        if expectedPrevious == 1 {
          if latest.Some? { return false; }
        } else if latest.None? || latest.value.epoch != expectedPrevious {
          return false;
        }
        if latest.Some? && e.occurredAt <= latest.value.occurredAt { return false; }
      }
      forall other: int ensures InSequence(Resets(rows + [Receipt(user, e)], other)) {
        RecordKeepsSequence(rows, user, e, other);
      }
      rows := rows + [Receipt(user, e)];
      return true;
    }
  }

  // ----- every run

  /** A rollback loses the rows at some positions. Transactions of different users interleave freely, those of one
  user do not: for each user the lost rows are the last ones. */
  datatype Action = Attempt(user: int, event: Event) | Rollback(lost: set<nat>)

  predicate LosesLast(rows: seq<Receipt>, lost: set<nat>) {
    forall i, j | 0 <= i < j < |rows| && rows[i].user == rows[j].user && i in lost :: j in lost
  }

  function Without(rows: seq<Receipt>, lost: set<nat>): seq<Receipt> {
    if rows == [] then []
    else
      var front := Without(rows[..|rows| - 1], lost);
      if |rows| - 1 in lost then front else front + [rows[|rows| - 1]]
  }

  function After(rows: seq<Receipt>, a: Action): seq<Receipt> {
    match a
    case Attempt(user, e) => if Accepts(rows, user, e) then rows + [Receipt(user, e)] else rows
    case Rollback(lost) => if LosesLast(rows, lost) then Without(rows, lost) else rows
  }

  lemma ResetsGrow(rows: seq<Receipt>, last: Receipt, user: int)
    ensures Resets(rows + [last], user) ==
            Resets(rows, user) + if last.user == user && last.event.kind == Reset then [last.event] else []
  {
    assert (rows + [last])[..|rows|] == rows;
  }

  /** A user who loses no row keeps all resets. */
  lemma {:induction false} ResetsUntouched(rows: seq<Receipt>, lost: set<nat>, user: int)
    requires forall i | 0 <= i < |rows| && rows[i].user == user :: i !in lost
    ensures Resets(Without(rows, lost), user) == Resets(rows, user)
  {
    if rows != [] {
      var front, last := rows[..|rows| - 1], rows[|rows| - 1];
      ResetsUntouched(front, lost, user);
      ResetsGrow(Without(front, lost), last, user);
    }
  }

  /** Rolling back transactions leaves every user a prefix of the resets. */
  lemma {:induction false} ResetsOfRest(rows: seq<Receipt>, lost: set<nat>, user: int)
    requires LosesLast(rows, lost)
    ensures Resets(Without(rows, lost), user) <= Resets(rows, user)
  {
    if rows != [] {
      var front, last := rows[..|rows| - 1], rows[|rows| - 1];
      if last.user == user && |rows| - 1 !in lost {
        ResetsUntouched(rows, lost, user);
      } else {
        ResetsOfRest(front, lost, user);
        ResetsGrow(Without(front, lost), last, user);
      }
    }
  }

  function AfterAll(actions: seq<Action>): seq<Receipt> {
    if actions == [] then [] else After(AfterAll(actions[..|actions| - 1]), actions[|actions| - 1])
  }

  /** Whatever is attempted and rolled back, a user's reset epochs are exactly 2..k, in order, and their
  boundaries strictly increase. */
  lemma {:induction false} ResetsStayInSequence(actions: seq<Action>, user: int)
    ensures InSequence(Resets(AfterAll(actions), user))
  {
    if actions != [] {
      var front, last := actions[..|actions| - 1], actions[|actions| - 1];
      ResetsStayInSequence(front, user);
      var rows := AfterAll(front);
      match last
      case Attempt(u, e) =>
        if Accepts(rows, u, e) { RecordKeepsSequence(rows, u, e, user); }
      case Rollback(lost) =>
        if LosesLast(rows, lost) { ResetsOfRest(rows, lost, user); }
    }
  }

  /** So an epoch is never recorded twice for a user, and the ledger refuses exactly the resets that do not
  come next. */
  lemma NextResetExactly(actions: seq<Action>, user: int, e: Event)
    requires e.kind == Reset
    ensures Accepts(AfterAll(actions), user, e) <==> IsNext(Resets(AfterAll(actions), user), e)
  {
    ResetsStayInSequence(actions, user);
    AcceptedIsNext(AfterAll(actions), user, e);
  }

  // ----- counter events

  datatype Counters = Counters(epoch: int, trades: int, commodities: int, messages: int)

  const MAX_VALUE := 2_147_483_647
  const MAX_EPOCH := 9_223_372_036_854_775_807

  datatype Outcome = NoEvent | Produced(event: Event, trades: int, commodities: int, messages: int) | Invalid

  /** `build_user_counter_event`, when the histories say that exactly the differing counters changed. */
  function CounterEvent(before: Counters, after: Counters, occurredAt: int): (o: Outcome) {
    var t, c, m := after.trades - before.trades, after.commodities - before.commodities, after.messages - before.messages;
    if before == after then NoEvent
    else if after.epoch != before.epoch then
      if after.epoch != before.epoch + 1 || after.epoch > MAX_EPOCH
         || after.trades != 0 || after.commodities != 0 || after.messages != 0
      then Invalid
      else Produced(Event(Reset, after.epoch, occurredAt), 0, 0, 0)
    else if t < 0 || c < 0 || m < 0 || t > MAX_VALUE || c > MAX_VALUE || m > MAX_VALUE then Invalid
    else Produced(Event(Increment, after.epoch, occurredAt), t, c, m)
  }

  /** Applying an event to the counters it came from gives the counters after the change. */
  function Apply(before: Counters, o: Outcome): Counters
    requires o.Produced?
  {
    if o.event.kind == Reset then Counters(o.event.epoch, 0, 0, 0)
    else Counters(before.epoch, before.trades + o.trades, before.commodities + o.commodities, before.messages + o.messages)
  }

  /** The changes that are legal: none, increments in range, and a reset to zero by one epoch. */
  ghost predicate Legal(before: Counters, after: Counters) {
    if after.epoch == before.epoch then
      && 0 <= after.trades - before.trades <= MAX_VALUE
      && 0 <= after.commodities - before.commodities <= MAX_VALUE
      && 0 <= after.messages - before.messages <= MAX_VALUE
    else after == Counters(before.epoch + 1, 0, 0, 0) && after.epoch <= MAX_EPOCH
  }

  /** Counter events lose nothing: every legal change but the empty one gives an event, the event replays the
  change, and every other change is refused. */
  lemma EventReplaysChange(before: Counters, after: Counters, occurredAt: int)
    ensures var o := CounterEvent(before, after, occurredAt);
            && (o.Produced? ==> Apply(before, o) == after)
            && (o.NoEvent? <==> before == after)
            && (o.Invalid? <==> !Legal(before, after))
            && (o.Produced? && o.event.kind == Increment ==> o.trades + o.commodities + o.messages > 0)
  {
  }
}
