/** The transactional outbox guard of core/sync_outbox_guard.py, with the database it protects.

`State` is what the hooks keep in `session.info`, `connection.info` and the token counter, next to
the open transaction levels, the committed transactions and the wake-up queue. Each hook is a
function on `State`; class `GuardedSession` runs the hooks in place and is proved equal to those
functions; the lemmas speak about every run. */
module OutboxGuard {
  import opened Wrappers

  // ----- identities

  datatype Operation = Insert | Update | Delete

  datatype Identity = Num(n: int) | Str(s: string)

  /** `int(text)` and `_normalize_identifier` are functions of the configuration. */
  datatype Config = Config(
    syncTables: set<string>, normalize: string -> string, intOf: string -> Option<int>)

  type Obj = nat // a mapped object, by its id()

  /** An object as the flush leaves it: its table, its primary key, its `key` attribute. */
  datatype Attributes = Attributes(table: string, id: Option<Identity>, key: string)

  /** The objects of a flush; an object that is not mapped has no table. */
  datatype Image = Image(objects: map<Obj, Attributes>) {
    function At(obj: Obj): Attributes {
      if obj in objects then objects[obj] else Attributes("", None, "")
    }
  }

  const SETTINGS_TABLE := "trading_settings"

  predicate RequiresOutbox(cfg: Config, table: string) {
    var normalized := cfg.normalize(table);
    normalized != "" && normalized in cfg.syncTables
  }

  function NormalizeId(cfg: Config, id: Identity): Identity {
    match id
    case Num(n) => id
    case Str(s) => if cfg.intOf(s).Some? then Num(cfg.intOf(s).value) else id
  }

  /** The identity under which a written object has to be recorded; None when it has none. */
  function ExpectedIdentity(cfg: Config, table: string, row: Attributes): Option<Identity> {
    if cfg.normalize(table) == SETTINGS_TABLE then
      if row.key != "" then Some(Str("key:" + row.key)) else None
    else if row.id.None? then None
    else Some(NormalizeId(cfg, row.id.value))
  }

  /** The identity under which a change_log row is recorded. */
  function OutboxIdentity(cfg: Config, table: string, id: Identity, dataKey: string): Identity {
    if cfg.normalize(table) == SETTINGS_TABLE && dataKey != "" then Str("key:" + dataKey)
    else NormalizeId(cfg, id)
  }

  // ----- state

  datatype PendingWrite = PendingWrite(table: string, operation: Operation, obj: Obj)

  datatype Key = Key(token: Option<nat>, table: string, operation: Operation, identity: Identity)

  /** What a transaction holds: every write of an object, with the token of its flush and whether its session is a
  sync session, and change_log rows with the record id and the `key` of their data. */
  datatype Entry =
    | Write(flush: Option<nat>, bySync: bool, operation: Operation, written: Attributes)
    | Row(token: Option<nat>, table: string, operation: Operation, id: Identity, dataKey: string)

  datatype SessionInfo = SessionInfo(pending: seq<PendingWrite>, token: Option<nat>, wakeups: nat)

  datatype ConnectionInfo = ConnectionInfo(
    current: Option<nat>, recorded: set<Key>, counts: map<Option<nat>, nat>)

  /** The open transaction levels, root first, and the committed transactions; the flush under way
  and the objects it writes; the flushes verified so far and whether this transaction lost a savepoint. */
  datatype Database = Database(
    levels: seq<seq<Entry>>, committed: seq<seq<Entry>>,
    flushing: bool, rows: Image, verified: set<nat>, savepointLost: bool)

  datatype State = State(
    nextToken: nat, session: SessionInfo, connection: ConnectionInfo, db: Database, queue: nat)

  /** A dirty object with the answer of `session.is_modified`; None when asking raised. */
  datatype Dirty = Dirty(obj: Obj, modified: Option<bool>)

  datatype Event =
    | Collect(isSync: bool, connected: bool, deleted: seq<Obj>, created: seq<Obj>, dirty: seq<Dirty>,
              image: Image)
    | Log(table: string, operation: Operation, id: Identity, dataKey: string, succeeds: bool)
    | Verify(connectedAtEnd: bool)
    | AbortFlush
    | Savepoint
    | Release
    | RollbackToSavepoint
    | Commit(redisUp: bool)
    | Rollback

  /** The order of hook calls that SQLAlchemy guarantees. */
  predicate Enabled(s: State, e: Event) {
    match e
    case Log(_, _, _, _, _) => true
    case Verify(_) => s.db.flushing
    case AbortFlush => s.db.flushing
    case Release => !s.db.flushing && |s.db.levels| >= 2
    case RollbackToSavepoint => !s.db.flushing && |s.db.levels| >= 2
    case Commit(_) => !s.db.flushing && |s.db.levels| == 1
    case Rollback => !s.db.flushing && |s.db.levels| == 1
    case _ => !s.db.flushing
  }

  // ----- before_flush

  function ObligationOf(cfg: Config, image: Image, obj: Obj, op: Operation): seq<PendingWrite> {
    var table := image.At(obj).table;
    if RequiresOutbox(cfg, table) then [PendingWrite(table, op, obj)] else []
  }

  function Obligations(cfg: Config, image: Image, objs: seq<Obj>, op: Operation): seq<PendingWrite> {
    if objs == [] then []
    else Obligations(cfg, image, objs[..|objs| - 1], op) + ObligationOf(cfg, image, objs[|objs| - 1], op)
  }

  function Objects(pending: seq<PendingWrite>): set<Obj> {
    set w | w in pending :: w.obj
  }

  function AddDirty(cfg: Config, image: Image, pending: seq<PendingWrite>, dirty: seq<Dirty>): (all: seq<PendingWrite>)
    ensures pending <= all
  {
    if dirty == [] then pending
    else
      var front, last := AddDirty(cfg, image, pending, dirty[..|dirty| - 1]), dirty[|dirty| - 1];
      if last.obj in Objects(front) || last.modified == Some(false) then front
      else front + ObligationOf(cfg, image, last.obj, Update)
  }

  function Collected(cfg: Config, image: Image, deleted: seq<Obj>, created: seq<Obj>, dirty: seq<Dirty>): seq<PendingWrite> {
    AddDirty(cfg, image, Obligations(cfg, image, deleted, Delete) + Obligations(cfg, image, created, Insert), dirty)
  }

  lemma {:induction false} ObligationsMembers(cfg: Config, image: Image, objs: seq<Obj>, op: Operation, w: PendingWrite)
    ensures w in Obligations(cfg, image, objs, op) <==>
            w.obj in objs && w.operation == op && w.table == image.At(w.obj).table && RequiresOutbox(cfg, w.table)
  {
    if objs != [] {
      assert objs == objs[..|objs| - 1] + [objs[|objs| - 1]];
      ObligationsMembers(cfg, image, objs[..|objs| - 1], op, w);
    }
  }

  /** A dirty object is due an UPDATE row unless it is known unmodified or already owed another row. */
  lemma {:induction false} DirtyMembers(cfg: Config, image: Image, pending: seq<PendingWrite>, dirty: seq<Dirty>, w: PendingWrite)
    ensures w in AddDirty(cfg, image, pending, dirty) <==>
            || w in pending
            || (&& w.obj !in Objects(pending) && w.operation == Update
                && w.table == image.At(w.obj).table && RequiresOutbox(cfg, w.table)
                && exists d :: d in dirty && d.obj == w.obj && d.modified != Some(false))
  {
    if dirty != [] {
      var front, last := dirty[..|dirty| - 1], dirty[|dirty| - 1];
      assert dirty == front + [last];
      DirtyMembers(cfg, image, pending, front, w);
      if last.obj == w.obj && last.modified != Some(false) {
        assert last in dirty;
        if last.obj in Objects(AddDirty(cfg, image, pending, front)) {
          var w' :| w' in AddDirty(cfg, image, pending, front) && w'.obj == last.obj;
          DirtyMembers(cfg, image, pending, front, w');
        }
      }
    }
  }

  /** The table is one of those that are synced. */
  ghost predicate Synced(cfg: Config, table: string) {
    cfg.normalize(table) != "" && cfg.normalize(table) in cfg.syncTables
  }

  /** The object is deleted, new, or dirty and not known to be unmodified. */
  ghost predicate Touches(deleted: seq<Obj>, created: seq<Obj>, dirty: seq<Dirty>, op: Operation, obj: Obj) {
    match op
    case Delete => obj in deleted
    case Insert => obj in created
    case Update =>
      && obj !in deleted && obj !in created
      && exists d :: d in dirty && d.obj == obj && d.modified != Some(false)
  }

  /** The obligations of a flush: exactly one kind of row for each written object of a SYNC table. */
  lemma CollectedMembers(cfg: Config, image: Image, deleted: seq<Obj>, created: seq<Obj>, dirty: seq<Dirty>, w: PendingWrite)
    ensures w in Collected(cfg, image, deleted, created, dirty) <==>
            && w.table == image.At(w.obj).table && Synced(cfg, w.table)
            && Touches(deleted, created, dirty, w.operation, w.obj)
  {
    var gone, added := Obligations(cfg, image, deleted, Delete), Obligations(cfg, image, created, Insert);
    DirtyMembers(cfg, image, gone + added, dirty, w);
    ObligationsMembers(cfg, image, deleted, Delete, w);
    ObligationsMembers(cfg, image, created, Insert, w);
    if RequiresOutbox(cfg, image.At(w.obj).table) {
      var d, i := PendingWrite(image.At(w.obj).table, Delete, w.obj), PendingWrite(image.At(w.obj).table, Insert, w.obj);
      ObligationsMembers(cfg, image, deleted, Delete, d);
      ObligationsMembers(cfg, image, created, Insert, i);
      if w.obj in Objects(gone + added) {
        var w': PendingWrite :| w' in gone + added && w'.obj == w.obj;
        ObligationsMembers(cfg, image, deleted, Delete, w');
        ObligationsMembers(cfg, image, created, Insert, w');
      }
      if w.obj in deleted { assert d in gone + added; }
      if w.obj in created { assert i in gone + added; }
    }
  }

  // ----- what the flush writes, whatever the guard collects

  datatype Change = Change(operation: Operation, obj: Obj)

  function ChangesOf(objs: seq<Obj>, op: Operation): seq<Change> {
    seq(|objs|, i requires 0 <= i < |objs| => Change(op, objs[i]))
  }

  function DirtyChanges(deleted: seq<Obj>, created: seq<Obj>, dirty: seq<Dirty>): seq<Change> {
    if dirty == [] then []
    else
      var front, last := DirtyChanges(deleted, created, dirty[..|dirty| - 1]), dirty[|dirty| - 1];
      if last.obj in deleted || last.obj in created || last.modified == Some(false) then front
      else front + [Change(Update, last.obj)]
  }

  function Changes(deleted: seq<Obj>, created: seq<Obj>, dirty: seq<Dirty>): seq<Change> {
    ChangesOf(deleted, Delete) + ChangesOf(created, Insert) + DirtyChanges(deleted, created, dirty)
  }

  lemma {:induction false} DirtyChangesTouch(deleted: seq<Obj>, created: seq<Obj>, dirty: seq<Dirty>, c: Change)
    ensures c in DirtyChanges(deleted, created, dirty) <==> c.operation == Update && Touches(deleted, created, dirty, Update, c.obj)
  {
    if dirty != [] {
      assert dirty == dirty[..|dirty| - 1] + [dirty[|dirty| - 1]];
      DirtyChangesTouch(deleted, created, dirty[..|dirty| - 1], c);
      assert dirty[|dirty| - 1] in dirty;
    }
  }

  lemma ChangesTouch(deleted: seq<Obj>, created: seq<Obj>, dirty: seq<Dirty>, c: Change)
    ensures c in Changes(deleted, created, dirty) <==> Touches(deleted, created, dirty, c.operation, c.obj)
  {
    DirtyChangesTouch(deleted, created, dirty, c);
    ChangesOfMembers(deleted, Delete, c);
    ChangesOfMembers(created, Insert, c);
  }

  lemma ChangesOfMembers(objs: seq<Obj>, op: Operation, c: Change)
    ensures c in ChangesOf(objs, op) <==> c.operation == op && c.obj in objs
  {
    if c.operation == op && c.obj in objs {
      var i :| 0 <= i < |objs| && objs[i] == c.obj;
      assert ChangesOf(objs, op)[i] == c;
    }
  }

  function WritesOf(image: Image, token: Option<nat>, bySync: bool, changes: seq<Change>): seq<Entry> {
    seq(|changes|, i requires 0 <= i < |changes| => Write(token, bySync, changes[i].operation, image.At(changes[i].obj)))
  }

  function AddToTop(levels: seq<seq<Entry>>, es: seq<Entry>): seq<seq<Entry>>
    requires levels != []
  {
    levels[..|levels| - 1] + [levels[|levels| - 1] + es]
  }

  /** `collect_pending_sync_writes`, then the flush sends its changes to the database. */
  function AfterCollect(
    cfg: Config, s: State, isSync: bool, connected: bool, image: Image, pending: seq<PendingWrite>, changes: seq<Change>): State
    requires s.db.levels != []
  {
    if isSync || pending == [] then s.(
      session := s.session.(pending := [], token := None),
      db := s.db.(flushing := true, levels := AddToTop(s.db.levels, WritesOf(image, None, isSync, changes))))
    else s.(
      nextToken := s.nextToken + 1,
      session := s.session.(pending := pending, token := Some(s.nextToken)),
      connection := if connected then s.connection.(current := Some(s.nextToken)) else s.connection,
      db := s.db.(flushing := true, rows := image,
                  levels := AddToTop(s.db.levels, WritesOf(image, Some(s.nextToken), false, changes))))
  }

  // ----- log_change

  function Count(counts: map<Option<nat>, nat>, token: Option<nat>): nat {
    if token in counts then counts[token] else 0
  }

  /** `log_change`: a change_log row in the current transaction level and the mark for the guard;
  a failure that the listener swallows leaves neither. */
  function AfterLog(cfg: Config, s: State, table: string, op: Operation, id: Identity, dataKey: string, succeeds: bool): State
    requires s.db.levels != []
  {
    if !succeeds then s
    else
      var identity := OutboxIdentity(cfg, table, id, dataKey);
      var c := s.connection;
      s.(connection := c.(
           recorded := c.recorded + {Key(c.current, cfg.normalize(table), op, identity)},
           counts := c.counts[c.current := Count(c.counts, c.current) + 1]),
         db := s.db.(levels := AddToTop(s.db.levels, [Row(c.current, table, op, id, dataKey)])))
  }

  // ----- after_flush

  predicate Discharged(cfg: Config, recorded: set<Key>, token: Option<nat>, image: Image, w: PendingWrite) {
    var identity := ExpectedIdentity(cfg, w.table, image.At(w.obj));
    identity.Some? && Key(token, cfg.normalize(w.table), w.operation, identity.value) in recorded
  }

  predicate AllDischarged(cfg: Config, s: State, connected: bool) {
    forall w | w in s.session.pending :: Discharged(cfg, if connected then s.connection.recorded else {}, s.session.token, s.db.rows, w)
  }

  /** The marks of a verified flush are dropped. */
  function WithoutMarks(c: ConnectionInfo, token: Option<nat>): ConnectionInfo {
    ConnectionInfo(
      if c.current == token then None else c.current,
      (set k | k in c.recorded && k.token != token),
      c.counts - {token})
  }

  /** `verify_pending_sync_outbox` before it raises or returns. */
  function Cleaned(s: State, connected: bool): State {
    s.(session := s.session.(pending := [], token := None),
       connection := if s.session.pending != [] && connected then WithoutMarks(s.connection, s.session.token) else s.connection)
  }

  function AfterVerify(cfg: Config, s: State, connected: bool): State
    requires s.db.levels != []
  {
    var s', token := Cleaned(s, connected), s.session.token;
    if s.session.pending == [] then s'.(db := s.db.(flushing := false))
    else if !AllDischarged(cfg, s, connected) then FlushFailed(s')
    else s'.(
      session := s'.session.(wakeups := s.session.wakeups + if connected then Count(s.connection.counts, token) else 0),
      db := s.db.(flushing := false, verified := s.db.verified + if token.Some? then {token.value} else {}))
  }

  /** An exception inside a flush rolls back the innermost transaction level. */
  function FlushFailed(s: State): State
    requires s.db.levels != []
  {
    LevelRolledBack(s.(db := s.db.(flushing := false)))
  }

  /** Rolling back the innermost level, then `clear_sync_outbox_wakeup_after_rollback`. */
  function LevelRolledBack(s: State): State
    requires s.db.levels != []
  {
    if |s.db.levels| >= 2
    then s.(db := s.db.(levels := s.db.levels[..|s.db.levels| - 1], savepointLost := true))
    else s.(db := s.db.(levels := [[]], savepointLost := false), session := s.session.(wakeups := 0))
  }

  function Released(levels: seq<seq<Entry>>): seq<seq<Entry>>
    requires |levels| >= 2
  {
    AddToTop(levels[..|levels| - 1], levels[|levels| - 1])
  }

  function Step(cfg: Config, s: State, e: Event): State
    requires s.db.levels != [] && Enabled(s, e)
  {
    match e
    case Collect(isSync, connected, deleted, created, dirty, image) =>
      AfterCollect(cfg, s, isSync, connected, image, Collected(cfg, image, deleted, created, dirty), Changes(deleted, created, dirty))
    case Log(table, op, id, dataKey, succeeds) => AfterLog(cfg, s, table, op, id, dataKey, succeeds)
    case Verify(connected) => AfterVerify(cfg, s, connected)
    case AbortFlush => FlushFailed(s)
    case Savepoint => s.(db := s.db.(levels := s.db.levels + [[]]))
    case Release => s.(db := s.db.(levels := Released(s.db.levels)))
    case RollbackToSavepoint => LevelRolledBack(s)
    case Rollback => LevelRolledBack(s)
    case Commit(redisUp) => s.(
      session := s.session.(wakeups := 0),
      db := s.db.(committed := s.db.committed + [s.db.levels[0]], levels := [[]], savepointLost := false),
      queue := s.queue + if redisUp then s.session.wakeups else 0)
  }

  // ----- coverage

  /** The number that `int()` reads. */
  function ParsedId(cfg: Config, id: Identity): Option<int> {
    match id case Num(n) => Some(n) case Str(s) => cfg.intOf(s)
  }

  /** Two record ids that are the same number, or else the same text. */
  predicate SameId(cfg: Config, a: Identity, b: Identity) {
    if ParsedId(cfg, a).Some? || ParsedId(cfg, b).Some? then ParsedId(cfg, a) == ParsedId(cfg, b) else a == b
  }

  /** The row names the object: by its primary key, or a setting by its `key`. */
  ghost predicate NamesObject(cfg: Config, row: Entry, written: Attributes)
    requires row.Row?
  {
    if cfg.normalize(written.table) == "trading_settings" then
      && written.key != ""
      && (if row.dataKey != "" then row.dataKey == written.key else row.id == Str("key:" + written.key))
    else written.id.Some? && SameId(cfg, row.id, written.id.value)
  }

  /** A change_log row, recorded under the flush of the write itself, of its table and operation, that names its object. */
  ghost predicate Covers(cfg: Config, row: Entry, write: Entry) {
    && row.Row? && write.Write? && row.token.Some? && row.token == write.flush
    && cfg.normalize(row.table) == cfg.normalize(write.written.table)
    && row.operation == write.operation
    && NamesObject(cfg, row, write.written)
  }

  /** A row recorded under the identity that the guard expects of an object names the object. */
  lemma MarkNamesObject(cfg: Config, row: Entry, written: Attributes)
    requires row.Row? && cfg.normalize(row.table) == cfg.normalize(written.table)
    requires ExpectedIdentity(cfg, written.table, written) == Some(OutboxIdentity(cfg, row.table, row.id, row.dataKey))
    ensures NamesObject(cfg, row, written)
  {
    assert ("key:" + row.dataKey)[4..] == row.dataKey && ("key:" + written.key)[4..] == written.key;
  }

  /** A write of a session that is not a sync session, to a synced table. */
  ghost predicate Owed(cfg: Config, write: Entry) {
    write.Write? && !write.bySync && Synced(cfg, write.written.table)
  }

  ghost predicate CoveredIn(cfg: Config, es: seq<Entry>, write: Entry) {
    exists row :: row in es && Covers(cfg, row, write)
  }

  /** Every write that owes a row has it, except those of the flush under way. */
  ghost predicate AllCovered(cfg: Config, es: seq<Entry>, underWay: Option<nat>) {
    forall w | w in es && Owed(cfg, w) && (w.flush.None? || w.flush != underWay) :: CoveredIn(cfg, es, w)
  }

  // ----- counting rows

  function RowsOf(es: seq<Entry>, tokens: set<nat>): nat {
    if es == [] then 0
    else
      var last := es[|es| - 1];
      RowsOf(es[..|es| - 1], tokens) + if last.Row? && last.token.Some? && last.token.value in tokens then 1 else 0
  }

  function RowsIn(levels: seq<seq<Entry>>, tokens: set<nat>): nat {
    if levels == [] then 0 else RowsIn(levels[..|levels| - 1], tokens) + RowsOf(levels[|levels| - 1], tokens)
  }

  lemma {:induction false} RowsOfConcat(a: seq<Entry>, b: seq<Entry>, tokens: set<nat>)
    ensures RowsOf(a + b, tokens) == RowsOf(a, tokens) + RowsOf(b, tokens)
  {
    if b == [] {
      assert a + b == a;
    } else {
      assert (a + b)[..|a + b| - 1] == a + b[..|b| - 1];
      RowsOfConcat(a, b[..|b| - 1], tokens);
    }
  }

  lemma {:induction false} RowsOfDisjoint(es: seq<Entry>, tokens: set<nat>, t: nat)
    requires t !in tokens
    ensures RowsOf(es, tokens + {t}) == RowsOf(es, tokens) + RowsOf(es, {t})
  {
    if es != [] { RowsOfDisjoint(es[..|es| - 1], tokens, t); }
  }

  lemma {:induction false} RowsInDisjoint(levels: seq<seq<Entry>>, tokens: set<nat>, t: nat)
    requires t !in tokens
    ensures RowsIn(levels, tokens + {t}) == RowsIn(levels, tokens) + RowsIn(levels, {t})
  {
    if levels != [] {
      RowsInDisjoint(levels[..|levels| - 1], tokens, t);
      RowsOfDisjoint(levels[|levels| - 1], tokens, t);
    }
  }

  lemma RowsInAddToTop(levels: seq<seq<Entry>>, es: seq<Entry>, tokens: set<nat>)
    requires levels != []
    ensures RowsIn(AddToTop(levels, es), tokens) == RowsIn(levels, tokens) + RowsOf(es, tokens)
  {
    var levels' := AddToTop(levels, es);
    assert levels'[..|levels'| - 1] == levels[..|levels| - 1];
    RowsOfConcat(levels[|levels| - 1], es, tokens);
  }

  lemma {:induction false} NoRows(es: seq<Entry>, tokens: set<nat>)
    requires forall e | e in es && e.Row? && e.token.Some? :: e.token.value !in tokens
    ensures RowsOf(es, tokens) == 0
  {
    if es != [] {
      assert es[|es| - 1] in es;
      NoRows(es[..|es| - 1], tokens);
    }
  }

  lemma {:induction false} NoRowsInLevels(levels: seq<seq<Entry>>, tokens: set<nat>)
    requires forall i | 0 <= i < |levels| :: forall e | e in levels[i] && e.Row? && e.token.Some? :: e.token.value !in tokens
    ensures RowsIn(levels, tokens) == 0
  {
    if levels != [] {
      NoRowsInLevels(levels[..|levels| - 1], tokens);
      NoRows(levels[|levels| - 1], tokens);
    }
  }
}
