/** The user listeners of core/events.py under v2, composed with the outbox guard: which updates of users survive
their flush, together with everything else that is flushed. */
module UserUpdateFlush {
  import opened Wrappers
  import G = OutboxGuard
  import R = OutboxRuns
  import F = OutboxFlush
  import U = UserSync
  import L = CounterLedger

  /** One dirty user: the server it is flushed on, its columns, the changed ones, the old natural keys, its
  counters before and after, the instant of the flush and the reset ledger. */
  datatype UserUpdate = UserUpdate(
    server: U.Server, id: int, row: U.UserRow, changed: set<U.Field>, previous: map<U.Name, U.Value>,
    before: L.Counters, after: L.Counters, occurredAt: int, ledger: seq<L.Receipt>)

  // ----- the listeners

  /** `_bump_sync_version`. */
  function Bumped(row: U.UserRow): U.UserRow {
    var current := U.VersionOf(row);
    row[U.SyncVersion := U.Int((if current > 1 then current else 1) + 1)]
  }

  /** What Iran's before_update looks for. */
  predicate BumpsVersion(changed: set<U.Field>) {
    exists f | f in changed :: U.Allowed(U.Iran, f) && !f.Id? && !f.CreatedAt? && !f.UpdatedAt? && !f.SyncVersion?
  }

  /** The before_update listener; None when it raises. */
  function BeforeUpdate(u: UserUpdate): Option<UserUpdate> {
    match u.server
    case Foreign =>
      if exists f | f in u.changed :: !U.Allowed(U.Foreign, f) && !f.CounterField? then None else Some(u)
    case Iran =>
      Some(if BumpsVersion(u.changed) then u.(row := Bumped(u.row), changed := u.changed + {U.SyncVersion}) else u)
    case UnknownServer => Some(u)
  }

  function CounterOutcome(u: UserUpdate): L.Outcome {
    L.CounterEvent(u.before, u.after, u.occurredAt)
  }

  function Patch(u: UserUpdate): Option<U.Payload> {
    U.UpdatePatch(u.server, u.row, u.changed, u.previous)
  }

  /** The after_update listener: how many change_log rows it writes; None when it raises. A patch comes first,
  then the ledger row and the counter event. */
  function RowsLogged(u: UserUpdate): Option<nat> {
    var counter := CounterOutcome(u);
    var patches := if Patch(u).Some? then 1 else 0;
    match counter
    case Invalid => None
    case NoEvent => Some(patches)
    case Produced(event, _, _, _) => if L.Accepts(u.ledger, u.id, event) then Some(patches + 1) else None
  }

  // ----- the flush

  const USERS := "users"

  /** The listeners of an update finish. */
  predicate Finishes(u: UserUpdate) {
    BeforeUpdate(u).Some? && RowsLogged(BeforeUpdate(u).value).Some?
  }

  /** How many rows they log then. */
  function RowCount(u: UserUpdate): nat {
    if Finishes(u) then RowsLogged(BeforeUpdate(u).value).value else 0
  }

  /** A successful call of `log_change` for a user. */
  function UserLog(id: int): F.LogCall {
    F.LogCall(USERS, G.Update, G.Num(id), "", true)
  }

  datatype DirtyUser = DirtyUser(obj: G.Obj, update: UserUpdate)

  /** What a flush contains: its objects, the updates of its dirty users, the calls of `log_change` by all other
  listeners and whether none of those raises, and all calls in the order in which they come; whether the two hooks
  had the connection. */
  datatype Flush = Flush(
    image: G.Image, deleted: seq<G.Obj>, created: seq<G.Obj>, dirty: seq<G.Dirty>,
    users: seq<DirtyUser>, others: seq<F.LogCall>, othersFinish: bool, logs: seq<F.LogCall>, atStart: bool, atEnd: bool)

  function Pending(cfg: G.Config, f: Flush): seq<G.PendingWrite> {
    G.Collected(cfg, f.image, f.deleted, f.created, f.dirty)
  }

  /** No listener raises. */
  predicate AllFinish(f: Flush) {
    f.othersFinish && forall d | d in f.users :: Finishes(d.update)
  }

  /** before_flush, the listeners, after_flush. A listener that raises aborts the flush. */
  function AfterFlush(cfg: G.Config, s: G.State, f: Flush): G.State
    requires s.db.levels != [] && !s.db.flushing
  {
    var collected := G.Step(cfg, s, G.Collect(false, f.atStart, f.deleted, f.created, f.dirty, f.image));
    var logged := F.AfterLogs(cfg, collected, f.logs);
    if AllFinish(f) then G.AfterVerify(cfg, logged, f.atEnd) else G.FlushFailed(logged)
  }

  /** The user is a row of a SYNC table with the primary key of the update. */
  ghost predicate IsUser(cfg: G.Config, obj: G.Obj, image: G.Image, u: UserUpdate) {
    && G.Synced(cfg, USERS) && cfg.normalize(USERS) != G.SETTINGS_TABLE
    && image.At(obj).table == USERS && image.At(obj).id == Some(G.Num(u.id))
  }

  /** The updates that the system lets through. */
  ghost predicate Permitted(u: UserUpdate) {
    && (u.server == U.Foreign ==> forall f | f in u.changed :: U.Allowed(U.Foreign, f) || f.CounterField?)
    && !CounterOutcome(u).Invalid?
    && (CounterOutcome(u).Produced? ==> L.Accepts(u.ledger, u.id, CounterOutcome(u).event))
    && (CounterOutcome(u).Produced? || TouchesPatch(u.server, u.changed))
  }

  lemma BumpKeepsComplete(row: U.UserRow)
    requires U.Complete(row)
    ensures U.Complete(Bumped(row))
  {
  }

  ghost predicate TouchesPatch(server: U.Server, changed: set<U.Field>) {
    exists f :: f in changed && U.InPatch(server, f)
  }

  lemma VersionIsNoPatch(server: U.Server, changed: set<U.Field>)
    ensures TouchesPatch(server, changed + {U.SyncVersion}) <==> TouchesPatch(server, changed)
  {
  }

  /** Bumping the version neither adds a patch nor touches the counters. */
  lemma BumpChangesNothingElse(u: UserUpdate)
    requires U.Complete(u.row) && BeforeUpdate(u).Some?
    ensures var u' := BeforeUpdate(u).value;
            && CounterOutcome(u') == CounterOutcome(u) && u'.ledger == u.ledger && u'.id == u.id
            && (Patch(u').Some? <==> TouchesPatch(u.server, u.changed))
  {
    var u' := BeforeUpdate(u).value;
    BumpKeepsComplete(u.row);
    VersionIsNoPatch(u.server, u.changed);
    U.PatchExactlyWhen(u'.server, u'.row, u'.changed, u'.previous);
  }

  /** The version is bumped exactly on Iran, and exactly when a column that Iran writes has changed. */
  lemma BumpsExactlyWhen(u: UserUpdate)
    requires BeforeUpdate(u).Some? && U.SyncIdentity !in u.changed
    ensures var u' := BeforeUpdate(u).value;
            u'.row == if u.server == U.Iran && exists f :: f in u.changed && (f.IranField? || f.Username? || f.LastSeenAt?)
                      then Bumped(u.row) else u.row
  {
    if f :| f in u.changed && (f.IranField? || f.Username? || f.LastSeenAt?) {
      assert U.Allowed(U.Iran, f);
    }
  }

  /** The listeners finish and leave a row exactly for permitted updates. */
  lemma RowsExactlyWhenPermitted(u: UserUpdate)
    requires U.Complete(u.row)
    ensures Permitted(u) <==>
            BeforeUpdate(u).Some? && RowsLogged(BeforeUpdate(u).value).Some? && RowsLogged(BeforeUpdate(u).value).value > 0
    ensures Finishes(u) ==> RowCount(u) == (if TouchesPatch(u.server, u.changed) then 1 else 0) + if CounterOutcome(u).Produced? then 1 else 0
  {
    if BeforeUpdate(u).Some? {
      BumpChangesNothingElse(u);
    }
  }

  // ----- every flush

  /** The object is a user that the flush owes an UPDATE row: dirty, not known to be unmodified, neither new nor deleted. */
  ghost predicate OwesUpdate(cfg: G.Config, f: Flush, obj: G.Obj) {
    && G.Synced(cfg, f.image.At(obj).table) && cfg.normalize(f.image.At(obj).table) == cfg.normalize(USERS)
    && obj !in f.deleted && obj !in f.created
    && exists d :: d in f.dirty && d.obj == obj && d.modified != Some(false)
  }

  ghost predicate HasUser(f: Flush, obj: G.Obj) {
    exists d :: d in f.users && d.obj == obj
  }

  /** The flush lists its dirty users, each once, under their own primary keys. */
  ghost predicate UsersListed(cfg: G.Config, f: Flush) {
    && (forall obj :: HasUser(f, obj) <==> OwesUpdate(cfg, f, obj))
    && (forall d | d in f.users :: IsUser(cfg, d.obj, f.image, d.update) && U.Complete(d.update.row))
    && (forall d, e | d in f.users && e in f.users && d.update.id == e.update.id :: d == e)
  }

  ghost predicate IsUserLog(f: Flush, c: F.LogCall) {
    exists d :: d in f.users && RowCount(d.update) > 0 && c == UserLog(d.update.id)
  }

  predicate OnUserUpdate(cfg: G.Config, table: string, operation: G.Operation) {
    cfg.normalize(table) == cfg.normalize(USERS) && operation == G.Update
  }

  /** When all listeners finish, the calls are theirs and those of the others, in any order; the others do not
  log updates of users. */
  ghost predicate CallsListed(cfg: G.Config, f: Flush) {
    && (forall c | c in f.others :: !OnUserUpdate(cfg, c.table, c.operation))
    && (AllFinish(f) ==> forall c :: c in f.logs <==> IsUserLog(f, c) || c in f.others)
  }

  /** The obligations on user updates are those of the listed users. */
  lemma UserObligations(cfg: G.Config, f: Flush, w: G.PendingWrite)
    requires UsersListed(cfg, f)
    ensures w in Pending(cfg, f) && OnUserUpdate(cfg, w.table, w.operation) <==>
            HasUser(f, w.obj) && w == G.PendingWrite(USERS, G.Update, w.obj)
  {
    G.CollectedMembers(cfg, f.image, f.deleted, f.created, f.dirty, w);
    if HasUser(f, w.obj) {
      var d :| d in f.users && d.obj == w.obj;
      assert IsUser(cfg, d.obj, f.image, d.update);
    }
  }

  /** A user's obligation is recorded exactly when the user's own listeners logged a row: no other user's row and no
  other object's helps. */
  lemma UserRecordedExactlyWhenLogged(cfg: G.Config, f: Flush, d: DirtyUser)
    requires UsersListed(cfg, f) && CallsListed(cfg, f) && d in f.users && AllFinish(f)
    ensures F.Recorded(cfg, f.image, f.logs, G.PendingWrite(USERS, G.Update, d.obj)) <==> RowCount(d.update) > 0
  {
    var w := G.PendingWrite(USERS, G.Update, d.obj);
    assert IsUser(cfg, d.obj, f.image, d.update);
    if RowCount(d.update) > 0 {
      assert IsUserLog(f, UserLog(d.update.id));
      F.FaithfulCallRecords(cfg, f.image, UserLog(d.update.id), w);
    }
    if F.Recorded(cfg, f.image, f.logs, w) {
      var c :| c in f.logs && F.Records(cfg, f.image, c, w);
      assert IsUserLog(f, c);
      var e :| e in f.users && RowCount(e.update) > 0 && c == UserLog(e.update.id);
      assert e.update.id == d.update.id;
    }
  }

  /** Any other obligation is recorded exactly when another listener's call records it. */
  lemma OtherRecordedExactlyWhen(cfg: G.Config, f: Flush, w: G.PendingWrite)
    requires CallsListed(cfg, f) && !OnUserUpdate(cfg, w.table, w.operation) && AllFinish(f)
    ensures F.Recorded(cfg, f.image, f.logs, w) <==> F.Recorded(cfg, f.image, f.others, w)
  {
    if F.Recorded(cfg, f.image, f.logs, w) {
      var c :| c in f.logs && F.Records(cfg, f.image, c, w);
      assert c in f.others;
    }
    if F.Recorded(cfg, f.image, f.others, w) {
      var c :| c in f.others && F.Records(cfg, f.image, c, w);
      assert c in f.logs;
    }
  }

  /** Every obligation besides the user updates is recorded by the other listeners. */
  ghost predicate OthersRecorded(cfg: G.Config, f: Flush) {
    forall w | w in Pending(cfg, f) && !OnUserUpdate(cfg, w.table, w.operation) :: F.Recorded(cfg, f.image, f.others, w)
  }

  lemma AllRecordedExactlyWhen(cfg: G.Config, f: Flush)
    requires UsersListed(cfg, f) && CallsListed(cfg, f) && AllFinish(f)
    ensures (forall w | w in Pending(cfg, f) :: F.Recorded(cfg, f.image, f.logs, w)) <==>
            (forall d | d in f.users :: RowCount(d.update) > 0) && OthersRecorded(cfg, f)
  {
    forall d | d in f.users
      ensures G.PendingWrite(USERS, G.Update, d.obj) in Pending(cfg, f)
      ensures F.Recorded(cfg, f.image, f.logs, G.PendingWrite(USERS, G.Update, d.obj)) <==> RowCount(d.update) > 0
    {
      assert HasUser(f, d.obj);
      UserObligations(cfg, f, G.PendingWrite(USERS, G.Update, d.obj));
      UserRecordedExactlyWhenLogged(cfg, f, d);
    }
    forall w | w in Pending(cfg, f)
      ensures OnUserUpdate(cfg, w.table, w.operation) ==> HasUser(f, w.obj) && w == G.PendingWrite(USERS, G.Update, w.obj)
      ensures !OnUserUpdate(cfg, w.table, w.operation) ==>
                (F.Recorded(cfg, f.image, f.logs, w) <==> F.Recorded(cfg, f.image, f.others, w))
    {
      UserObligations(cfg, f, w);
      if !OnUserUpdate(cfg, w.table, w.operation) { OtherRecordedExactlyWhen(cfg, f, w); }
    }
  }

  /** When all listeners finish, the guard passes the flush exactly when both hooks had the connection, every user's
  listeners logged a row and the other listeners recorded every other obligation. */
  lemma VerifiedExactlyWhenLogged(cfg: G.Config, s: G.State, f: Flush)
    requires R.Inv(cfg, s) && !s.db.flushing && Pending(cfg, f) != [] && UsersListed(cfg, f) && CallsListed(cfg, f) && AllFinish(f)
    ensures s.nextToken in AfterFlush(cfg, s, f).db.verified <==>
            f.atStart && f.atEnd && (forall d | d in f.users :: RowCount(d.update) > 0) && OthersRecorded(cfg, f)
    ensures s.nextToken !in AfterFlush(cfg, s, f).db.verified ==> AfterFlush(cfg, s, f).db.levels == F.LostLevel(s.db.levels)
  {
    F.FlushVerifiedExactlyWhen(cfg, s, f.atStart, f.atEnd, f.image, Pending(cfg, f), G.Changes(f.deleted, f.created, f.dirty), f.logs);
    AllRecordedExactlyWhen(cfg, f);
  }

  /** Under v2, with log_change succeeding for users, a flush survives exactly when every update of a user in it is
  permitted, the other listeners finish and record every other obligation, and both hooks had the connection;
  every other flush loses the innermost transaction level. */
  lemma UpdatesSurviveExactlyWhenPermitted(cfg: G.Config, s: G.State, f: Flush)
    requires R.Inv(cfg, s) && !s.db.flushing && Pending(cfg, f) != [] && UsersListed(cfg, f) && CallsListed(cfg, f)
    ensures s.nextToken in AfterFlush(cfg, s, f).db.verified <==>
            && f.atStart && f.atEnd && (forall d | d in f.users :: Permitted(d.update))
            && f.othersFinish && OthersRecorded(cfg, f)
    ensures s.nextToken !in AfterFlush(cfg, s, f).db.verified ==> AfterFlush(cfg, s, f).db.levels == F.LostLevel(s.db.levels)
  {
    forall d | d in f.users ensures Permitted(d.update) <==> Finishes(d.update) && RowCount(d.update) > 0 {
      RowsExactlyWhenPermitted(d.update);
    }
    if AllFinish(f) {
      VerifiedExactlyWhenLogged(cfg, s, f);
    } else {
      F.AbortedFlushIsLost(cfg, s, f.atStart, f.image, Pending(cfg, f), G.Changes(f.deleted, f.created, f.dirty), f.logs);
    }
  }

  /** A flush of one dirty user and nothing else. */
  function OneUserFlush(obj: G.Obj, image: G.Image, u: UserUpdate): Flush {
    Flush(image, [], [], [G.Dirty(obj, Some(true))], [DirtyUser(obj, u)], [], true, seq(RowCount(u), _ => UserLog(u.id)), true, true)
  }

  lemma OneUserListed(cfg: G.Config, obj: G.Obj, image: G.Image, u: UserUpdate)
    requires IsUser(cfg, obj, image, u) && U.Complete(u.row)
    ensures var f := OneUserFlush(obj, image, u);
            UsersListed(cfg, f) && CallsListed(cfg, f) && Pending(cfg, f) != [] && OthersRecorded(cfg, f)
  {
    var f := OneUserFlush(obj, image, u);
    var d := DirtyUser(obj, u);
    assert d in f.users && f.dirty[0] in f.dirty;
    assert HasUser(f, obj) && OwesUpdate(cfg, f, obj);
    if RowCount(u) > 0 { assert f.logs[0] in f.logs; }
    forall w | w in Pending(cfg, f) ensures OnUserUpdate(cfg, w.table, w.operation) {
      G.CollectedMembers(cfg, image, [], [], f.dirty, w);
    }
    UserObligations(cfg, f, G.PendingWrite(USERS, G.Update, obj));
  }

  /** Alone in its flush, an update survives exactly when it is permitted. */
  lemma UpdateSurvivesExactlyWhenPermitted(cfg: G.Config, s: G.State, obj: G.Obj, image: G.Image, u: UserUpdate)
    requires R.Inv(cfg, s) && !s.db.flushing && IsUser(cfg, obj, image, u) && U.Complete(u.row)
    ensures var after := AfterFlush(cfg, s, OneUserFlush(obj, image, u));
            && (s.nextToken in after.db.verified <==> Permitted(u))
            && (!Permitted(u) ==> after.db.levels == F.LostLevel(s.db.levels))
  {
    OneUserListed(cfg, obj, image, u);
    UpdatesSurviveExactlyWhenPermitted(cfg, s, OneUserFlush(obj, image, u));
    assert DirtyUser(obj, u) in OneUserFlush(obj, image, u).users;
  }

  /** The bump raises the version by one, from 1 where it was lower, and changes no other column. */
  lemma BumpRaisesVersion(row: U.UserRow, previous: map<U.Name, U.Value>)
    ensures U.VersionOf(Bumped(row)) == (if U.VersionOf(row) > 1 then U.VersionOf(row) else 1) + 1
    ensures forall f | f != U.SyncVersion :: (f in Bumped(row) <==> f in row) && (f in row ==> Bumped(row)[f] == row[f])
    ensures U.IdentityValue(Bumped(row), previous) == U.IdentityValue(row, previous)
    ensures U.Identified(Bumped(row), previous) <==> U.Identified(row, previous)
  {
    assert U.PresentKeys(Bumped(row)) == U.PresentKeys(row);
    U.SentIdentityExactlyWhen(row, previous);
    U.SentIdentityExactlyWhen(Bumped(row), previous);
  }

  lemma PatchIsBumped(u: UserUpdate)
    requires u.server == U.Iran && U.Complete(u.row) && Patch(BeforeUpdate(u).value).Some?
    ensures BeforeUpdate(u).value == u.(row := Bumped(u.row), changed := u.changed + {U.SyncVersion})
  {
  }

  /** What Iran sends after an authorised change carries the changed columns with their values under the next version, and
  the receiver takes it whole, whatever the version was before. */
  lemma IranPatchAccepted(env: U.Env, u: UserUpdate, u': UserUpdate, data: U.Payload, acceptUnversioned: bool)
    requires U.Lawful(env) && u.server == U.Iran && U.Complete(u.row) && U.Identified(u.row, u.previous)
    requires BeforeUpdate(u) == Some(u') && Patch(u') == Some(data)
    ensures U.Get(data, U.SyncVersion) == U.Int((if U.VersionOf(u.row) > 1 then U.VersionOf(u.row) else 1) + 1)
    ensures forall f | f in u.changed && U.InPatch(U.Iran, f) :: f in data && data[f] == u.row[f]
    ensures U.Receive(env, U.Users, U.Update, U.AfterUsersPolicy(data), U.Iran, true, acceptUnversioned) == U.Accepted(data, {})
  {
    PatchIsBumped(u);
    BumpRaisesVersion(u.row, u.previous);
    BumpKeepsComplete(u.row);
    BumpedPatch(env, u.row, u'.row, u.changed, u'.changed, u.previous, acceptUnversioned);
  }

  lemma BumpedPatch(
    env: U.Env, before: U.UserRow, row: U.UserRow, touched: set<U.Field>, changed: set<U.Field>, previous: map<U.Name, U.Value>, acceptUnversioned: bool)
    requires U.Lawful(env) && U.Complete(row) && U.Identified(row, previous) && U.VersionOf(row) >= 1 && touched <= changed
    requires forall f | f in before && f != U.SyncVersion :: f in row && row[f] == before[f]
    requires U.Complete(before) && U.UpdatePatch(U.Iran, row, changed, previous).Some?
    ensures var data := U.UpdatePatch(U.Iran, row, changed, previous).value;
            && U.Get(data, U.SyncVersion) == U.Int(U.VersionOf(row))
            && (forall f | f in touched && U.InPatch(U.Iran, f) :: f in data && data[f] == before[f])
            && U.Receive(env, U.Users, U.Update, U.AfterUsersPolicy(data), U.Iran, true, acceptUnversioned) == U.Accepted(data, {})
  {
    var data := U.UpdatePatch(U.Iran, row, changed, previous).value;
    U.PatchCarries(U.Iran, row, changed, previous, data, U.SyncVersion);
    forall f | f in touched && U.InPatch(U.Iran, f) ensures f in data && data[f] == before[f] {
      U.PatchCarries(U.Iran, row, changed, previous, data, f);
    }
    U.UpdateAccepted(env, U.Iran, row, changed, previous, acceptUnversioned);
  }

  // ----- counter events on the wire

  function Delta(column: U.CounterColumn, n: int): map<U.Name, U.Value> {
    if n > 0 then map[U.Counter(column) := U.Int(n)] else map[]
  }

  /** The positive deltas of an event. */
  function Deltas(o: L.Outcome): map<U.Name, U.Value>
    requires o.Produced?
  {
    Delta(U.TradesCount, o.trades) + Delta(U.CommoditiesTradedCount, o.commodities) + Delta(U.ChannelMessagesCount, o.messages)
  }

  function KindName(kind: L.Kind): string {
    if kind == L.Reset then "reset" else "increment"
  }

  /** The counter event of an update, as after_update sends it. */
  function EventOf(u: UserUpdate, eventId: string): U.EventContent
    requires CounterOutcome(u).Produced?
  {
    var o := CounterOutcome(u);
    U.EventContent(u.id, eventId, KindName(o.event.kind), o.event.epoch, Deltas(o), o.event.occurredAt, U.IdentityValue(u.row, u.previous))
  }

  lemma DeltasValid(before: L.Counters, after: L.Counters, occurredAt: int)
    requires L.CounterEvent(before, after, occurredAt).Produced?
    ensures var o := L.CounterEvent(before, after, occurredAt);
            U.ValidDeltas(KindName(o.event.kind), U.Object(Deltas(o)))
  {
    var o := L.CounterEvent(before, after, occurredAt);
    if o.event.kind == L.Increment {
      var k := if o.trades > 0 then U.TradesCount else if o.commodities > 0 then U.CommoditiesTradedCount else U.ChannelMessagesCount;
      assert U.Counter(k) in Deltas(o) && Deltas(o)[U.Counter(k)].n > 0;
    }
  }

  function DeltaOf(deltas: map<U.Name, U.Value>, column: U.CounterColumn): int {
    if U.Counter(column) in deltas && deltas[U.Counter(column)].Int? then deltas[U.Counter(column)].n else 0
  }

  /** The event as it is sent replays the change on the counters it came from. */
  lemma SentEventReplaysChange(u: UserUpdate, eventId: string)
    requires CounterOutcome(u).Produced?
    ensures var e := EventOf(u, eventId);
            && e.id == u.id && e.eventId == eventId && e.occurredAt == u.occurredAt && e.epoch == u.after.epoch
            && (e.kind == "reset" ==> u.after == L.Counters(u.before.epoch + 1, 0, 0, 0))
            && (e.kind == "increment" ==>
                  u.after == L.Counters(u.before.epoch, u.before.trades + DeltaOf(e.deltas, U.TradesCount),
                    u.before.commodities + DeltaOf(e.deltas, U.CommoditiesTradedCount),
                    u.before.messages + DeltaOf(e.deltas, U.ChannelMessagesCount)))
            && (e.kind == "reset" || e.kind == "increment")
  {
  }

  /** Counters as the database holds them, and a changed set that tells when the epoch moved. */
  ghost predicate Consistent(u: UserUpdate) {
    && 1 <= u.before.epoch && u.after.epoch <= L.MAX_EPOCH
    && (U.CounterEpoch in u.changed <==> u.before.epoch != u.after.epoch)
  }

  /** A foreign server never gets as far as a reset. */
  lemma ResetsComeFromIran(u: UserUpdate)
    requires Permitted(u) && Consistent(u) && CounterOutcome(u).Produced? && CounterOutcome(u).event.kind == L.Reset
    ensures u.server != U.Foreign
  {
  }

  /** Every counter event of a permitted update of an identified user passes the field policy and the receiver
  untouched. */
  lemma CounterEventAccepted(env: U.Env, u: UserUpdate, eventId: string, acceptUnversioned: bool)
    requires U.Lawful(env) && Permitted(u) && Consistent(u) && CounterOutcome(u).Produced? && u.server != U.UnknownServer
    requires env.uuidOf(U.Text(eventId)) == Some(eventId) && u.occurredAt <= env.latestPlausible
    requires U.Identified(u.row, u.previous)
    ensures var data := U.EventPayload(env, EventOf(u, eventId));
            U.Receive(env, U.Users, U.Update, U.AfterUsersPolicy(data), u.server, true, acceptUnversioned) == U.Accepted(data, {})
  {
    var e := EventOf(u, eventId);
    DeltasValid(u.before, u.after, u.occurredAt);
    U.SentIdentityExactlyWhen(u.row, u.previous);
    if CounterOutcome(u).event.kind == L.Reset { ResetsComeFromIran(u); }
    U.EventAccepted(env, e, u.server, acceptUnversioned);
  }
}
