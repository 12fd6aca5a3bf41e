/** The hooks of core/sync_outbox_guard.py run in place on a session and its connection. */
module OutboxSession {
  import opened Wrappers
  import opened OutboxGuard
  import opened OutboxRuns

  /** `_append_pending`. */
  method AppendPending(cfg: Config, image: Image, before: seq<PendingWrite>, obj: Obj, op: Operation)
    returns (after: seq<PendingWrite>)
    ensures after == before + ObligationOf(cfg, image, obj, op)
  {
    var table := image.At(obj).table;
    if !RequiresOutbox(cfg, table) { return before; }
    after := before + [PendingWrite(table, op, obj)];
  }

  /** The three loops of `collect_pending_sync_writes`. */
  method FindPending(cfg: Config, deleted: seq<Obj>, created: seq<Obj>, dirty: seq<Dirty>, image: Image)
    returns (found: seq<PendingWrite>)
    ensures found == Collected(cfg, image, deleted, created, dirty)
    ensures forall w :: w in found <==>
              w.table == image.At(w.obj).table && Synced(cfg, w.table) && Touches(deleted, created, dirty, w.operation, w.obj)
  {
    found := [];
    for i := 0 to |deleted|
      invariant found == Obligations(cfg, image, deleted[..i], Delete)
    {
      assert deleted[..i + 1][..i] == deleted[..i];
      found := AppendPending(cfg, image, found, deleted[i], Delete);
    }
    assert deleted[..|deleted|] == deleted;
    ghost var gone := found;
    for i := 0 to |created|
      invariant found == gone + Obligations(cfg, image, created[..i], Insert)
    {
      assert created[..i + 1][..i] == created[..i];
      found := AppendPending(cfg, image, found, created[i], Insert);
    }
    assert created[..|created|] == created;
    ghost var owed := found;
    for i := 0 to |dirty|
      invariant found == AddDirty(cfg, image, owed, dirty[..i])
    {
      assert dirty[..i + 1][..i] == dirty[..i];
      if dirty[i].obj !in Objects(found) && dirty[i].modified != Some(false) {
        found := AppendPending(cfg, image, found, dirty[i].obj, Update);
      }
    }
    assert dirty[..|dirty|] == dirty;
    forall w: PendingWrite
      ensures w in Collected(cfg, image, deleted, created, dirty) <==>
              w.table == image.At(w.obj).table && Synced(cfg, w.table) && Touches(deleted, created, dirty, w.operation, w.obj)
    {
      CollectedMembers(cfg, image, deleted, created, dirty, w);
    }
  }

  /** The loop of `verify_pending_sync_outbox`. */
  method FindMissing(cfg: Config, owed: seq<PendingWrite>, marks: set<Key>, flush: Option<nat>, rows: Image)
    returns (missing: seq<PendingWrite>)
    ensures forall w :: w in missing <==> w in owed && !Discharged(cfg, marks, flush, rows, w)
  {
    missing := [];
    for i := 0 to |owed|
      invariant forall w :: w in missing <==> w in owed[..i] && !Discharged(cfg, marks, flush, rows, w)
    {
      var w := owed[i];
      assert owed[..i + 1] == owed[..i] + [w];
      var identity := ExpectedIdentity(cfg, w.table, rows.At(w.obj));
      if identity.None? {
        missing := missing + [w];
      } else if Key(flush, cfg.normalize(w.table), w.operation, identity.value) !in marks {
        missing := missing + [w];
      }
    }
    assert owed[..|owed|] == owed;
  }

  class GuardedSession {
    const cfg: Config
    var nextToken: nat             // _TOKEN_COUNTER
    var session: SessionInfo       // session.info
    var connection: ConnectionInfo // connection.info
    var queue: nat                 // the Redis list
    var rows: Image                // the objects of the flush under way
    var depth: nat                 // open transaction levels, as `in_nested_transaction` sees them
    ghost var db: Database

    ghost predicate Valid()
      reads this
    {
      db.levels != [] && depth == |db.levels| && rows == db.rows
    }

    ghost function View(): State
      reads this
    {
      State(nextToken, session, connection, db, queue)
    }

    constructor (cfg: Config)
      ensures this.cfg == cfg && Valid() && Initial(View())
    {
      var image := Image(map[]);
      this.cfg, nextToken, queue, depth, rows := cfg, 1, 0, 1, image;
      session, connection := SessionInfo([], None, 0), ConnectionInfo(None, {}, map[]);
      db := Database([[]], [], false, image, {}, false);
    }

    /** `collect_pending_sync_writes`, the before_flush hook. */
    method CollectPendingSyncWrites(
      isSync: bool, connected: bool, deleted: seq<Obj>, created: seq<Obj>, dirty: seq<Dirty>, image: Image)
      requires Valid() && !db.flushing
      modifies this
      ensures Valid()
      ensures View() == Step(cfg, old(View()), Collect(isSync, connected, deleted, created, dirty, image))
      ensures forall w :: w in session.pending <==>
                && !isSync && w.table == image.At(w.obj).table && Synced(cfg, w.table)
                && Touches(deleted, created, dirty, w.operation, w.obj)
    {
      ghost var changes := Changes(deleted, created, dirty);
      if isSync {
        session := session.(pending := [], token := None);
        db := db.(flushing := true, levels := AddToTop(db.levels, WritesOf(image, None, true, changes)));
        return;
      }
      var found := FindPending(cfg, deleted, created, dirty, image);
      if found == [] {
        session := session.(pending := [], token := None);
        db := db.(flushing := true, levels := AddToTop(db.levels, WritesOf(image, None, false, changes)));
        return;
      }
      var t := nextToken;
      nextToken, rows := t + 1, image;
      session := session.(pending := found, token := Some(t));
      if connected {
        connection := connection.(current := Some(t));
      }
      db := db.(flushing := true, rows := image, levels := AddToTop(db.levels, WritesOf(image, Some(t), false, changes)));
    }

    /** `log_change`: the change_log row, then `mark_sync_outbox_recorded`. */
    method LogChange(table: string, op: Operation, id: Identity, dataKey: string, succeeds: bool)
      requires Valid()
      modifies this
      ensures Valid()
      ensures View() == Step(cfg, old(View()), Log(table, op, id, dataKey, succeeds))
    {
      if !succeeds { return; }
      var identity, c := OutboxIdentity(cfg, table, id, dataKey), connection;
      db := db.(levels := AddToTop(db.levels, [Row(c.current, table, op, id, dataKey)]));
      connection := c.(
        recorded := c.recorded + {Key(c.current, cfg.normalize(table), op, identity)},
        counts := c.counts[c.current := Count(c.counts, c.current) + 1]);
    }

    /** `verify_pending_sync_outbox`, the after_flush hook. A non-empty result is the SyncOutboxError
    that lists it; SQLAlchemy then rolls back the innermost level. */
    method VerifyPendingSyncOutbox(connected: bool) returns (missing: seq<PendingWrite>)
      requires Valid() && db.flushing
      modifies this
      ensures Valid()
      ensures View() == Step(cfg, old(View()), Verify(connected))
      ensures missing == [] <==> AllDischarged(cfg, old(View()), connected)
      ensures forall w | w in missing :: w in old(session).pending
    {
      ghost var before := View();
      var owed, flush := session.pending, session.token;
      session := session.(pending := [], token := None);
      if owed == [] {
        missing := [];
        db := db.(flushing := false);
        return;
      }
      var marks := if connected then connection.recorded else {};
      var rowCount := if connected then Count(connection.counts, flush) else 0;
      missing := FindMissing(cfg, owed, marks, flush, rows);
      assert missing == [] <==> AllDischarged(cfg, before, connected) by {
        if missing != [] { assert missing[0] in missing; }
      }
      if connected {
        connection := WithoutMarks(connection, flush);
      }
      if missing != [] {
        RollBackLevel();
        return;
      }
      session := session.(wakeups := session.wakeups + rowCount);
      db := db.(flushing := false, verified := db.verified + if flush.Some? then {flush.value} else {});
    }

    /** The innermost level is lost, then `clear_sync_outbox_wakeup_after_rollback` runs. */
    method RollBackLevel()
      requires Valid()
      modifies `session, `db, `depth
      ensures Valid()
      ensures View() == FlushFailed(old(View()))
    {
      if depth >= 2 {
        db := db.(flushing := false, levels := db.levels[..|db.levels| - 1], savepointLost := true);
        depth := depth - 1;
        return;
      }
      db := db.(flushing := false, levels := [[]], savepointLost := false);
      session := session.(wakeups := 0);
    }

    /** An exception inside a flush, or `session.rollback()` on the innermost level. */
    method RollBack()
      requires Valid()
      modifies this
      ensures Valid()
      ensures View() == Step(cfg, old(View()),
                if old(db).flushing then AbortFlush else if old(depth) >= 2 then RollbackToSavepoint else Rollback)
    {
      RollBackLevel();
    }

    /** `session.begin_nested()`. */
    method BeginNested()
      requires Valid() && !db.flushing
      modifies this
      ensures Valid()
      ensures View() == Step(cfg, old(View()), Savepoint)
    {
      db, depth := db.(levels := db.levels + [[]]), depth + 1;
    }

    /** A savepoint is released or the root commits, then `publish_sync_outbox_wakeup_after_commit` runs. */
    method CommitLevel(redisUp: bool)
      requires Valid() && !db.flushing
      modifies this
      ensures Valid()
      ensures View() == Step(cfg, old(View()), if old(depth) >= 2 then Release else Commit(redisUp))
    {
      if depth >= 2 {
        db, depth := db.(levels := Released(db.levels)), depth - 1;
        return;
      }
      db := db.(committed := db.committed + [db.levels[0]], levels := [[]], savepointLost := false);
      var signals := session.wakeups;
      session := session.(wakeups := 0);
      if signals > 0 && redisUp {
        queue := queue + signals;
      }
    }
  }
}
