/** What every run of the outbox guard keeps: coverage of committed writes and conservation of wake-ups. */
module OutboxRuns {
  import opened Wrappers
  import opened OutboxGuard

  // ----- the invariant

  ghost predicate Used(t: Option<nat>, next: nat) {
    t.Some? ==> t.value < next
  }

  ghost predicate EntriesUsed(es: seq<Entry>, next: nat) {
    forall e | e in es :: Used(if e.Write? then e.flush else e.token, next)
  }

  ghost predicate LevelsUsed(levels: seq<seq<Entry>>, next: nat) {
    forall i | 0 <= i < |levels| :: EntriesUsed(levels[i], next)
  }

  /** Every token in sight was handed out earlier, so the next one is fresh. */
  ghost predicate TokensUsed(s: State) {
    && Used(s.connection.current, s.nextToken)
    && (forall k | k in s.connection.recorded :: Used(k.token, s.nextToken))
    && (forall t | t in s.connection.counts :: Used(t, s.nextToken))
    && (forall t | t in s.db.verified :: t < s.nextToken)
    && LevelsUsed(s.db.levels, s.nextToken)
  }

  ghost predicate KeyHasRow(cfg: Config, es: seq<Entry>, k: Key) {
    exists row :: row in es && row.Row? && row.token == k.token && cfg.normalize(row.table) == k.table
      && row.operation == k.operation && OutboxIdentity(cfg, row.table, row.id, row.dataKey) == k.identity
  }

  /** Marks under the token of the flush exist only while it is the connection's token, and each has its row. */
  ghost predicate MarksKept(cfg: Config, recorded: set<Key>, current: Option<nat>, top: seq<Entry>, t: nat) {
    forall k | k in recorded && k.token == Some(t) :: current == Some(t) && KeyHasRow(cfg, top, k)
  }

  ghost predicate IsWriteOf(rows: Image, t: nat, e: Entry, w: PendingWrite) {
    e == Write(Some(t), false, w.operation, rows.At(w.obj)) && w.table == rows.At(w.obj).table
  }

  ghost predicate WriteIsPending(rows: Image, pending: seq<PendingWrite>, t: nat, e: Entry) {
    exists w :: w in pending && IsWriteOf(rows, t, e, w)
  }

  /** The writes of the flush that owe a row are those of its obligations, and are in the innermost level only. */
  ghost predicate WritesKept(cfg: Config, rows: Image, pending: seq<PendingWrite>, levels: seq<seq<Entry>>, t: nat) {
    forall i, e | 0 <= i < |levels| && e in levels[i] && Owed(cfg, e) && e.flush == Some(t) ::
      i == |levels| - 1 && WriteIsPending(rows, pending, t, e)
  }

  /** What holds during a flush with obligations. */
  ghost predicate FlushKept(cfg: Config, s: State, t: nat)
    requires s.db.levels != []
  {
    && t < s.nextToken && t !in s.db.verified && s.session.pending != []
    && MarksKept(cfg, s.connection.recorded, s.connection.current, s.db.levels[|s.db.levels| - 1], t)
    && Count(s.connection.counts, Some(t)) == RowsIn(s.db.levels, {t})
    && WritesKept(cfg, s.db.rows, s.session.pending, s.db.levels, t)
  }

  function UnderWay(s: State): Option<nat> {
    if s.db.flushing then s.session.token else None
  }

  ghost predicate LevelsCovered(cfg: Config, levels: seq<seq<Entry>>, underWay: Option<nat>) {
    forall i | 0 <= i < |levels| :: AllCovered(cfg, levels[i], underWay)
  }

  ghost predicate WakeupsKept(s: State) {
    && s.session.wakeups >= RowsIn(s.db.levels, s.db.verified)
    && (!s.db.savepointLost ==> s.session.wakeups == RowsIn(s.db.levels, s.db.verified))
    && (s.connection.current.Some? ==> s.connection.current.value !in s.db.verified)
  }

  ghost predicate Inv(cfg: Config, s: State) {
    && s.db.levels != []
    && TokensUsed(s)
    && (s.db.flushing && s.session.token.None? ==> s.session.pending == [])
    && (s.db.flushing && s.session.token.Some? ==> FlushKept(cfg, s, s.session.token.value))
    && LevelsCovered(cfg, s.db.levels, UnderWay(s))
    && LevelsCovered(cfg, s.db.committed, None)
    && WakeupsKept(s)
  }

  /** A new session on a pooled connection, whose marks may survive from earlier sessions. */
  ghost predicate Initial(s: State) {
    && s.db.levels == [[]] && s.db.committed == [] && s.db.verified == {} && s.session.wakeups == 0 && !s.db.flushing && !s.db.savepointLost
    && TokensUsed(s)
  }

  lemma InitialInv(cfg: Config, s: State)
    requires Initial(s)
    ensures Inv(cfg, s)
  {
  }

  // ----- one step at a time

  /** Entries whose writes are covered, or belong to the flush under way, may join the innermost level. */
  lemma AddToTopKeeps(cfg: Config, levels: seq<seq<Entry>>, es: seq<Entry>, underWay: Option<nat>, next: nat)
    requires levels != [] && LevelsCovered(cfg, levels, underWay) && LevelsUsed(levels, next)
    requires AllCovered(cfg, es, underWay) && EntriesUsed(es, next)
    ensures LevelsCovered(cfg, AddToTop(levels, es), underWay) && LevelsUsed(AddToTop(levels, es), next)
  {
  }

  /** Every change of an object of a synced table is an obligation. */
  ghost predicate ChangesPending(cfg: Config, image: Image, pending: seq<PendingWrite>, changes: seq<Change>) {
    forall c | c in changes && Synced(cfg, image.At(c.obj).table) :: PendingWrite(image.At(c.obj).table, c.operation, c.obj) in pending
  }

  /** The guard collects every one. */
  lemma CollectedIsComplete(cfg: Config, image: Image, deleted: seq<Obj>, created: seq<Obj>, dirty: seq<Dirty>)
    ensures ChangesPending(cfg, image, Collected(cfg, image, deleted, created, dirty), Changes(deleted, created, dirty))
  {
    forall c | c in Changes(deleted, created, dirty) && Synced(cfg, image.At(c.obj).table)
      ensures PendingWrite(image.At(c.obj).table, c.operation, c.obj) in Collected(cfg, image, deleted, created, dirty)
    {
      ChangesTouch(deleted, created, dirty, c);
      CollectedMembers(cfg, image, deleted, created, dirty, PendingWrite(image.At(c.obj).table, c.operation, c.obj));
    }
  }

  lemma OwedWriteIsPending(cfg: Config, image: Image, pending: seq<PendingWrite>, changes: seq<Change>, t: nat, e: Entry)
    requires ChangesPending(cfg, image, pending, changes) && e in WritesOf(image, Some(t), false, changes) && Owed(cfg, e)
    ensures WriteIsPending(image, pending, t, e)
  {
    var writes := WritesOf(image, Some(t), false, changes);
    var j :| 0 <= j < |writes| && writes[j] == e;
    assert changes[j] in changes;
    var w := PendingWrite(image.At(changes[j].obj).table, changes[j].operation, changes[j].obj);
    assert w in pending && IsWriteOf(image, t, e, w);
  }

  /** A fresh token: no row has it, and its writes are those just added. */
  lemma FreshFlush(cfg: Config, levels: seq<seq<Entry>>, image: Image, pending: seq<PendingWrite>, changes: seq<Change>, t: nat)
    requires levels != [] && LevelsUsed(levels, t) && ChangesPending(cfg, image, pending, changes)
    ensures var levels' := AddToTop(levels, WritesOf(image, Some(t), false, changes));
            RowsIn(levels', {t}) == 0 && WritesKept(cfg, image, pending, levels', t)
  {
    var writes := WritesOf(image, Some(t), false, changes);
    NoRows(writes, {t});
    RowsInAddToTop(levels, writes, {t});
    forall i | 0 <= i < |levels| ensures forall e | e in levels[i] && e.Row? && e.token.Some? :: e.token.value !in {t} {
      assert EntriesUsed(levels[i], t);
    }
    NoRowsInLevels(levels, {t});
    forall i, e | 0 <= i < |levels| && e in AddToTop(levels, writes)[i] && Owed(cfg, e) && e.flush == Some(t)
      ensures i == |levels| - 1 && WriteIsPending(image, pending, t, e)
    {
      assert EntriesUsed(levels[i], t);
      assert e in writes;
      OwedWriteIsPending(cfg, image, pending, changes, t, e);
    }
  }

  /** A flush without obligations writes nothing that owes a row. */
  lemma NothingOwed(cfg: Config, image: Image, isSync: bool, changes: seq<Change>)
    requires isSync || ChangesPending(cfg, image, [], changes)
    ensures forall e | e in WritesOf(image, None, isSync, changes) :: !Owed(cfg, e)
  {
    forall e | e in WritesOf(image, None, isSync, changes) ensures !Owed(cfg, e) {
      var j :| 0 <= j < |changes| && WritesOf(image, None, isSync, changes)[j] == e;
      assert changes[j] in changes;
    }
  }

  lemma CollectKeeps(
    cfg: Config, s: State, isSync: bool, connected: bool, image: Image, pending: seq<PendingWrite>, changes: seq<Change>)
    requires Inv(cfg, s) && !s.db.flushing && (isSync || ChangesPending(cfg, image, pending, changes))
    ensures Inv(cfg, AfterCollect(cfg, s, isSync, connected, image, pending, changes))
  {
    var levels := s.db.levels;
    if !isSync && pending != [] {
      var t, writes := s.nextToken, WritesOf(image, Some(s.nextToken), false, changes);
      FreshFlush(cfg, levels, image, pending, changes, t);
      NoRows(writes, s.db.verified);
      RowsInAddToTop(levels, writes, s.db.verified);
      assert LevelsCovered(cfg, levels, Some(t)) && LevelsUsed(levels, t + 1) by {
        forall i | 0 <= i < |levels| ensures AllCovered(cfg, levels[i], Some(t)) && EntriesUsed(levels[i], t + 1) {
          assert AllCovered(cfg, levels[i], None) && EntriesUsed(levels[i], t);
        }
      }
      AddToTopKeeps(cfg, levels, writes, Some(t), t + 1);
    } else {
      var writes := WritesOf(image, None, isSync, changes);
      NothingOwed(cfg, image, isSync, changes);
      NoRows(writes, s.db.verified);
      RowsInAddToTop(levels, writes, s.db.verified);
      AddToTopKeeps(cfg, levels, writes, None, s.nextToken);
    }
  }

  lemma LogKeepsMarks(cfg: Config, recorded: set<Key>, current: Option<nat>, top: seq<Entry>, t: nat, row: Entry)
    requires MarksKept(cfg, recorded, current, top, t) && row.Row? && row.token == current
    ensures MarksKept(cfg, recorded + {Key(current, cfg.normalize(row.table), row.operation, OutboxIdentity(cfg, row.table, row.id, row.dataKey))}, current, top + [row], t)
  {
  }

  lemma RowKeepsWrites(cfg: Config, rows: Image, pending: seq<PendingWrite>, levels: seq<seq<Entry>>, t: nat, row: Entry)
    requires levels != [] && WritesKept(cfg, rows, pending, levels, t) && row.Row?
    ensures WritesKept(cfg, rows, pending, AddToTop(levels, [row]), t)
  {
  }

  lemma LogKeepsFlush(cfg: Config, s: State, table: string, op: Operation, id: Identity, dataKey: string, t: nat)
    requires s.db.levels != [] && FlushKept(cfg, s, t)
    ensures FlushKept(cfg, AfterLog(cfg, s, table, op, id, dataKey, true), t)
  {
    var row := Row(s.connection.current, table, op, id, dataKey);
    LogKeepsMarks(cfg, s.connection.recorded, s.connection.current, s.db.levels[|s.db.levels| - 1], t, row);
    RowKeepsWrites(cfg, s.db.rows, s.session.pending, s.db.levels, t, row);
    RowsInAddToTop(s.db.levels, [row], {t});
    assert [row][..0] == [];
    assert RowsOf([row], {t}) == if s.connection.current == Some(t) then 1 else 0;
  }

  lemma LogKeeps(cfg: Config, s: State, table: string, op: Operation, id: Identity, dataKey: string)
    requires Inv(cfg, s)
    ensures Inv(cfg, AfterLog(cfg, s, table, op, id, dataKey, true))
  {
    var s' := AfterLog(cfg, s, table, op, id, dataKey, true);
    var row := Row(s.connection.current, table, op, id, dataKey);
    NoRows([row], s.db.verified);
    RowsInAddToTop(s.db.levels, [row], s.db.verified);
    AddToTopKeeps(cfg, s.db.levels, [row], UnderWay(s), s.nextToken);
    if s.db.flushing && s.session.token.Some? {
      LogKeepsFlush(cfg, s, table, op, id, dataKey, s.session.token.value);
    }
  }

  /** Losing the innermost level loses every write of the flush under way. */
  lemma RollbackKeeps(cfg: Config, s: State)
    requires Inv(cfg, s)
    ensures Inv(cfg, FlushFailed(s))
  {
    if |s.db.levels| >= 2 {
      forall i | 0 <= i < |s.db.levels| - 1 ensures AllCovered(cfg, s.db.levels[i], None) {
        assert AllCovered(cfg, s.db.levels[i], UnderWay(s));
      }
    } else {
      assert RowsOf([], s.db.verified) == 0;
    }
  }

  lemma CleanedKeeps(cfg: Config, s: State, connected: bool)
    requires Inv(cfg, s) && s.db.flushing
    ensures Inv(cfg, FlushFailed(Cleaned(s, connected)))
  {
    RollbackKeeps(cfg, s);
  }

  lemma PendingIsCovered(cfg: Config, s: State, w: Entry)
    requires Inv(cfg, s) && s.db.flushing && s.session.pending != [] && s.session.token.Some? && AllDischarged(cfg, s, true)
    requires w in s.db.levels[|s.db.levels| - 1] && Owed(cfg, w) && w.flush == s.session.token
    ensures CoveredIn(cfg, s.db.levels[|s.db.levels| - 1], w)
  {
    var t, top := s.session.token.value, s.db.levels[|s.db.levels| - 1];
    assert WriteIsPending(s.db.rows, s.session.pending, t, w);
    var p :| p in s.session.pending && IsWriteOf(s.db.rows, t, w, p);
    assert Discharged(cfg, s.connection.recorded, s.session.token, s.db.rows, p);
    var k := Key(s.session.token, cfg.normalize(p.table), p.operation, ExpectedIdentity(cfg, p.table, w.written).value);
    assert KeyHasRow(cfg, top, k);
    var row :| row in top && row.Row? && row.token == k.token && cfg.normalize(row.table) == k.table
      && row.operation == k.operation && OutboxIdentity(cfg, row.table, row.id, row.dataKey) == k.identity;
    MarkNamesObject(cfg, row, w.written);
    assert Covers(cfg, row, w);
  }

  /** A flush whose obligations are all discharged leaves its writes covered by its own rows. */
  lemma DischargedIsCovered(cfg: Config, s: State, connected: bool)
    requires Inv(cfg, s) && s.db.flushing && s.session.pending != [] && AllDischarged(cfg, s, connected)
    ensures connected && s.session.token.Some? && s.connection.current == s.session.token
    ensures LevelsCovered(cfg, s.db.levels, None)
  {
    var t, top := s.session.token.value, |s.db.levels| - 1;
    assert s.session.pending[0] in s.session.pending;
    assert Discharged(cfg, if connected then s.connection.recorded else {}, s.session.token, s.db.rows, s.session.pending[0]);
    forall w | w in s.db.levels[top] && Owed(cfg, w) ensures CoveredIn(cfg, s.db.levels[top], w) {
      if w.flush == Some(t) {
        PendingIsCovered(cfg, s, w);
      } else {
        assert AllCovered(cfg, s.db.levels[top], s.session.token);
      }
    }
    forall i | 0 <= i < top ensures AllCovered(cfg, s.db.levels[i], None) {
      assert AllCovered(cfg, s.db.levels[i], s.session.token);
    }
  }

  lemma VerifyKeeps(cfg: Config, s: State, connected: bool)
    requires Inv(cfg, s) && s.db.flushing
    ensures Inv(cfg, AfterVerify(cfg, s, connected))
  {
    if s.session.pending == [] {
    } else if AllDischarged(cfg, s, connected) {
      DischargedIsCovered(cfg, s, connected);
      RowsInDisjoint(s.db.levels, s.db.verified, s.session.token.value);
    } else {
      CleanedKeeps(cfg, s, connected);
    }
  }

  lemma ReleaseKeeps(cfg: Config, s: State)
    requires Inv(cfg, s) && !s.db.flushing && |s.db.levels| >= 2
    ensures Inv(cfg, s.(db := s.db.(levels := Released(s.db.levels))))
  {
    var n := |s.db.levels|;
    var outer, inner := s.db.levels[..n - 1], s.db.levels[n - 1];
    RowsInAddToTop(outer, inner, s.db.verified);
    AddToTopKeeps(cfg, outer, inner, None, s.nextToken);
  }

  lemma SavepointKeeps(cfg: Config, s: State)
    requires Inv(cfg, s) && !s.db.flushing
    ensures Inv(cfg, s.(db := s.db.(levels := s.db.levels + [[]])))
  {
    assert (s.db.levels + [[]])[..|s.db.levels|] == s.db.levels;
    assert RowsOf([], s.db.verified) == 0;
  }

  lemma CommitKeeps(cfg: Config, s: State, redisUp: bool)
    requires Inv(cfg, s) && !s.db.flushing && |s.db.levels| == 1
    ensures Inv(cfg, Step(cfg, s, Commit(redisUp)))
  {
    assert RowsOf([], s.db.verified) == 0;
    assert AllCovered(cfg, s.db.levels[0], None);
  }

  lemma StepKeeps(cfg: Config, s: State, e: Event)
    requires Inv(cfg, s) && Enabled(s, e)
    ensures Inv(cfg, Step(cfg, s, e))
  {
    match e
    case Collect(isSync, connected, deleted, created, dirty, image) =>
      CollectedIsComplete(cfg, image, deleted, created, dirty);
      CollectKeeps(cfg, s, isSync, connected, image, Collected(cfg, image, deleted, created, dirty), Changes(deleted, created, dirty));
    case Log(table, op, id, dataKey, succeeds) =>
      if succeeds { LogKeeps(cfg, s, table, op, id, dataKey); }
    case Verify(connected) => VerifyKeeps(cfg, s, connected);
    case AbortFlush => RollbackKeeps(cfg, s);
    case Savepoint => SavepointKeeps(cfg, s);
    case Release => ReleaseKeeps(cfg, s);
    case RollbackToSavepoint => RollbackKeeps(cfg, s);
    case Rollback => RollbackKeeps(cfg, s);
    case Commit(redisUp) => CommitKeeps(cfg, s, redisUp);
  }

  // ----- every run

  /** `ss` is a run: each state comes from the one before by an event that may occur there. */
  ghost predicate Run(cfg: Config, ss: seq<State>, es: seq<Event>) {
    && |ss| == |es| + 1 && Initial(ss[0])
    && forall i | 0 <= i < |es| :: ss[i].db.levels != [] && Enabled(ss[i], es[i]) && ss[i + 1] == Step(cfg, ss[i], es[i])
  }

  lemma {:induction false} RunInv(cfg: Config, ss: seq<State>, es: seq<Event>, i: nat)
    requires Run(cfg, ss, es) && i < |ss|
    ensures Inv(cfg, ss[i])
  {
    if i == 0 {
      InitialInv(cfg, ss[0]);
    } else {
      RunInv(cfg, ss, es, i - 1);
      StepKeeps(cfg, ss[i - 1], es[i - 1]);
    }
  }

  /** Whatever the guard collects, a flush writes every object it touches into the innermost level. */
  lemma FlushWritesItsChanges(cfg: Config, s: State, e: Event, op: Operation, obj: Obj)
    requires s.db.levels != [] && e.Collect? && Enabled(s, e) && Touches(e.deleted, e.created, e.dirty, op, obj)
    ensures var levels := Step(cfg, s, e).db.levels;
            && levels != []
            && exists w :: w in levels[|levels| - 1] && w.Write? && w.bySync == e.isSync && w.operation == op && w.written == e.image.At(obj)
  {
    var changes, s' := Changes(e.deleted, e.created, e.dirty), Step(cfg, s, e);
    ChangesTouch(e.deleted, e.created, e.dirty, Change(op, obj));
    var i :| 0 <= i < |changes| && changes[i] == Change(op, obj);
    var writes := WritesOf(e.image, s'.session.token, e.isSync, changes);
    assert writes[i] in writes;
    assert writes[i] in s'.db.levels[|s'.db.levels| - 1];
  }

  /** In every run each committed write to a synced table by a session that is not a sync session has, in the same
  transaction, a change_log row recorded under its own flush, of its table and operation, that names its object. */
  lemma CommittedWritesAreCovered(cfg: Config, ss: seq<State>, es: seq<Event>, i: nat, txn: nat, write: Entry)
    requires Run(cfg, ss, es) && i < |ss| && txn < |ss[i].db.committed|
    requires write in ss[i].db.committed[txn] && write.Write? && !write.bySync
    requires cfg.normalize(write.written.table) != "" && cfg.normalize(write.written.table) in cfg.syncTables
    ensures exists row :: row in ss[i].db.committed[txn] && Covers(cfg, row, write)
  {
    RunInv(cfg, ss, es, i);
    assert AllCovered(cfg, ss[i].db.committed[txn], None) && Owed(cfg, write);
    assert CoveredIn(cfg, ss[i].db.committed[txn], write);
  }

  /** After verification nothing of the flush is left on the connection, and nothing else is touched. */
  lemma VerifyLeavesNoMarks(cfg: Config, s: State, k: Key, t: nat)
    requires Inv(cfg, s) && s.db.flushing && s.session.token == Some(t)
    ensures var c, c' := s.connection, AfterVerify(cfg, s, true).connection;
            && (k in c'.recorded <==> k in c.recorded && k.token != Some(t)) && Some(t) !in c'.counts && c'.current != Some(t)
            && (forall u | u in c.counts && u != Some(t) :: u in c'.counts && c'.counts[u] == c.counts[u])
            && (c.current != Some(t) ==> c'.current == c.current)
  {
  }

  /** The event rolls back the root: a rollback, or a flush that fails while no savepoint is open. */
  predicate LosesRoot(cfg: Config, s: State, e: Event) {
    || e.Rollback?
    || (|s.db.levels| == 1 && (e.AbortFlush? || (e.Verify? && !AllDischarged(cfg, s, e.connectedAtEnd))))
  }

  /** Wake-up conservation. The queue moves only at a root commit; there it grows by at least the
  surviving rows of verified flushes, and by exactly that number when no savepoint was lost. A root commit and
  every loss of the root leave no wake-up pending. */
  lemma WakeupsConserved(cfg: Config, ss: seq<State>, es: seq<Event>, i: nat)
    requires Run(cfg, ss, es) && i < |es|
    ensures !es[i].Commit? ==> ss[i + 1].queue == ss[i].queue
    ensures es[i].Commit? ==> ss[i + 1].db.committed == ss[i].db.committed + [ss[i].db.levels[0]]
    ensures es[i].Commit? && es[i].redisUp ==>
              ss[i + 1].queue - ss[i].queue >= RowsOf(ss[i].db.levels[0], ss[i].db.verified)
    ensures es[i].Commit? && es[i].redisUp && !ss[i].db.savepointLost ==>
              ss[i + 1].queue - ss[i].queue == RowsOf(ss[i].db.levels[0], ss[i].db.verified)
    ensures es[i].Commit? && !es[i].redisUp ==> ss[i + 1].queue == ss[i].queue
    ensures es[i].Commit? || LosesRoot(cfg, ss[i], es[i]) ==> ss[i + 1].session.wakeups == 0
  {
    RunInv(cfg, ss, es, i);
    if es[i].Commit? {
      var levels, verified := ss[i].db.levels, ss[i].db.verified;
      assert levels[..|levels| - 1] == [];
      assert RowsIn(levels, verified) == RowsOf(levels[0], verified);
    }
  }
}
