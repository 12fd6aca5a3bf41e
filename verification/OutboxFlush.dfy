/** One flush from before_flush to after_flush: the guard lets it through exactly when every obligation was logged. */
module OutboxFlush {
  import opened Wrappers
  import opened OutboxGuard
  import opened OutboxRuns

  /** A call of `log_change` by a listener. */
  datatype LogCall = LogCall(table: string, operation: Operation, id: Identity, dataKey: string, succeeds: bool)

  function AfterLogs(cfg: Config, s: State, logs: seq<LogCall>): (s': State)
    requires s.db.levels != []
    ensures s'.db.levels != []
  {
    if logs == [] then s
    else
      var last := logs[|logs| - 1];
      AfterLog(cfg, AfterLogs(cfg, s, logs[..|logs| - 1]), last.table, last.operation, last.id, last.dataKey, last.succeeds)
  }

  function KeyOf(cfg: Config, token: Option<nat>, c: LogCall): Key {
    Key(token, cfg.normalize(c.table), c.operation, OutboxIdentity(cfg, c.table, c.id, c.dataKey))
  }

  ghost predicate Marked(cfg: Config, token: Option<nat>, logs: seq<LogCall>, k: Key) {
    exists c :: c in logs && c.succeeds && KeyOf(cfg, token, c) == k
  }

  lemma MarkedGrows(cfg: Config, token: Option<nat>, logs: seq<LogCall>, c: LogCall, k: Key)
    ensures Marked(cfg, token, logs + [c], k) <==> Marked(cfg, token, logs, k) || (c.succeeds && KeyOf(cfg, token, c) == k)
  {
  }

  /** The listeners only add marks under the token of the connection, and rows to the innermost level. */
  lemma {:induction false} LogsMark(cfg: Config, s: State, logs: seq<LogCall>, k: Key)
    requires s.db.levels != []
    ensures var s' := AfterLogs(cfg, s, logs);
            && s'.session == s.session && s'.connection.current == s.connection.current
            && s'.db == s.db.(levels := s'.db.levels) && |s'.db.levels| == |s.db.levels|
            && s'.db.levels[..|s.db.levels| - 1] == s.db.levels[..|s.db.levels| - 1]
            && (k in s'.connection.recorded <==> k in s.connection.recorded || Marked(cfg, s.connection.current, logs, k))
  {
    if logs != [] {
      var front, last := logs[..|logs| - 1], logs[|logs| - 1];
      LogsMark(cfg, s, front, k);
      assert logs == front + [last];
      MarkedGrows(cfg, s.connection.current, front, last, k);
    }
  }

  /** The call records the write: same table and operation, and the identity that the guard expects. */
  ghost predicate Records(cfg: Config, image: Image, c: LogCall, w: PendingWrite) {
    && c.succeeds && cfg.normalize(c.table) == cfg.normalize(w.table) && c.operation == w.operation
    && ExpectedIdentity(cfg, w.table, image.At(w.obj)) == Some(OutboxIdentity(cfg, c.table, c.id, c.dataKey))
  }

  ghost predicate Recorded(cfg: Config, image: Image, logs: seq<LogCall>, w: PendingWrite) {
    exists c :: c in logs && Records(cfg, image, c, w)
  }

  /** A listener that passes on its object's own table, key and `key` attribute records the write. */
  lemma FaithfulCallRecords(cfg: Config, image: Image, c: LogCall, w: PendingWrite)
    requires c.succeeds && c.table == w.table && c.operation == w.operation
    requires if cfg.normalize(w.table) == SETTINGS_TABLE then c.dataKey == image.At(w.obj).key != ""
             else image.At(w.obj).id == Some(c.id)
    ensures Records(cfg, image, c, w)
  {
  }

  /** The flush with its listeners, as the events of a run; `connected` says whether before_flush had a connection. */
  function Logged(cfg: Config, s: State, connected: bool, image: Image, pending: seq<PendingWrite>, changes: seq<Change>, logs: seq<LogCall>): (s': State)
    requires s.db.levels != []
    ensures s'.db.levels != []
  {
    AfterLogs(cfg, AfterCollect(cfg, s, false, connected, image, pending, changes), logs)
  }

  lemma DischargedExactlyWhen(
    cfg: Config, s: State, connected: bool, image: Image, pending: seq<PendingWrite>, changes: seq<Change>, logs: seq<LogCall>, w: PendingWrite)
    requires Inv(cfg, s) && pending != []
    ensures var s' := Logged(cfg, s, connected, image, pending, changes, logs);
            Discharged(cfg, s'.connection.recorded, s'.session.token, s'.db.rows, w) <==> connected && Recorded(cfg, image, logs, w)
  {
    var t, identity := Some(s.nextToken), ExpectedIdentity(cfg, w.table, image.At(w.obj));
    var k := Key(t, cfg.normalize(w.table), w.operation, if identity.Some? then identity.value else Num(0));
    LogsMark(cfg, AfterCollect(cfg, s, false, connected, image, pending, changes), logs, k);
    assert k !in s.connection.recorded && s.connection.current != t;
    if Recorded(cfg, image, logs, w) {
      var c :| c in logs && Records(cfg, image, c, w);
      assert KeyOf(cfg, t, c) == k;
    }
    if identity.Some? && Marked(cfg, t, logs, k) {
      var c :| c in logs && c.succeeds && KeyOf(cfg, t, c) == k;
      assert Records(cfg, image, c, w);
    }
  }

  /** The innermost level as a failed flush leaves it. */
  function LostLevel(levels: seq<seq<Entry>>): seq<seq<Entry>>
    requires levels != []
  {
    if |levels| >= 2 then levels[..|levels| - 1] else [[]]
  }

  /** A flush is verified exactly when both hooks had the connection and each of its obligations was recorded by a
  successful `log_change` during that flush; marks of other flushes do not help. Otherwise the innermost level is
  lost. */
  lemma FlushVerifiedExactlyWhen(
    cfg: Config, s: State, atStart: bool, atEnd: bool, image: Image, pending: seq<PendingWrite>, changes: seq<Change>, logs: seq<LogCall>)
    requires Inv(cfg, s) && !s.db.flushing && pending != []
    ensures var after := AfterVerify(cfg, Logged(cfg, s, atStart, image, pending, changes, logs), atEnd);
            && (s.nextToken in after.db.verified <==> atStart && atEnd && forall w | w in pending :: Recorded(cfg, image, logs, w))
            && (s.nextToken !in after.db.verified ==> after.db.levels == LostLevel(s.db.levels))
  {
    var s' := Logged(cfg, s, atStart, image, pending, changes, logs);
    LogsMark(cfg, AfterCollect(cfg, s, false, atStart, image, pending, changes), logs, Key(None, "", Insert, Num(0)));
    forall w | w in pending
      ensures Discharged(cfg, s'.connection.recorded, s'.session.token, s'.db.rows, w) <==> atStart && Recorded(cfg, image, logs, w)
    {
      DischargedExactlyWhen(cfg, s, atStart, image, pending, changes, logs, w);
    }
    assert pending[0] in pending;
  }

  /** A flush that a listener aborts, whatever was logged before, is not verified and loses the innermost level. */
  lemma AbortedFlushIsLost(cfg: Config, s: State, connected: bool, image: Image, pending: seq<PendingWrite>, changes: seq<Change>, logs: seq<LogCall>)
    requires Inv(cfg, s) && !s.db.flushing
    ensures var after := FlushFailed(Logged(cfg, s, connected, image, pending, changes, logs));
            s.nextToken !in after.db.verified && after.db.levels == LostLevel(s.db.levels)
  {
    LogsMark(cfg, AfterCollect(cfg, s, false, connected, image, pending, changes), logs, Key(None, "", Insert, Num(0)));
  }
}
