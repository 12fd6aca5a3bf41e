/** The versioned user sync contract: field policy (core/sync_field_policy.py), the receiver's sanitizer
(core/registration_sync_policy.py) and the producer's payloads (core/events.py). */
module UserSync {
  import opened Wrappers

  /** USER_SYNC_IDENTITY_FIELDS without username: written by Iran only. */
  datatype IranColumn =
    | TelegramId | FullName | MobileNumber | AccountName | Address | Role | AccountStatus
    | DeactivatedAt | MessengerGraceExpiresAt | MessengerBlockedAt | HasBotAccess | HomeServer | IsDeleted | DeletedAt
    | CanBlockUsers | MaxBlockedUsers | MaxDailyTrades | MaxActiveCommodities | MaxDailyRequests
    | TradingRestrictedUntil | LimitationsExpireAt | MaxSessions | MaxAccountants | MaxCustomers | OfferOvertimeMinutes

  /** USER_SYNC_FOREIGN_FIELDS without username. */
  datatype ForeignColumn = OnboardingRequiredStep | OnboardingCompletedStep | OnboardingCompletedAt

  /** USER_SYNC_COUNTER_FIELDS. */
  datatype CounterColumn = TradesCount | CommoditiesTradedCount | ChannelMessagesCount

  /** The columns of `users` that the field policy drops. */
  datatype LocalColumn =
    NormalizedAccountName | NormalizedMobileNumber | AdminPasswordHash | MustChangePassword | AvatarFileId

  /** The field names of user payloads, grouped by who may write them, and the names of other tables. */
  datatype Field =
    | Id | CreatedAt | UpdatedAt | SyncVersion | SyncIdentity // USER_SYNC_METADATA_FIELDS
    | IranField(iran: IranColumn)
    | Username                                                // in both authority sets
    | ForeignField(foreign: ForeignColumn)
    | LastSeenAt                                              // USER_SYNC_SHARED_FIELDS
    | CounterField(counter: CounterColumn) | CounterEpoch
    | GlobalLockGraceExpiresAt | GlobalWebLockedAt            // legacy aliases, payload only
    | LocalField(local: LocalColumn)
    | SyncContract | EventId | EventKind | EventEpoch | EventDeltas | EventOccurredAt
    | Other(name: string)

  /** The keys of nested objects: those of `_sync_identity`, the counter names of `_counter_deltas`, others. */
  datatype Name = Current | Previous | Natural(column: IranColumn) | Counter(column': CounterColumn) | OtherName(name: string)

  /** A JSON value. */
  datatype Value = Null | Int(n: int) | Text(s: string) | Object(entries: map<Name, Value>) | OtherJson(canonical: string)

  type Payload = map<Field, Value>

  datatype Server = Iran | Foreign | UnknownServer

  datatype Operation = Insert | Update | Delete

  datatype Table = Users | OtherVersioned | Unversioned

  /** `int(value)`, `str(UUID(str(value)))`, the normalisation of instants, the ISO form, and the clock. */
  datatype Env = Env(
    intOf: Value -> Option<int>, uuidOf: Value -> Option<string>,
    instantOf: Value -> Option<int>, iso: int -> string, latestPlausible: int)

  ghost predicate Lawful(env: Env) {
    && (forall n: int :: env.intOf(Int(n)) == Some(n))
    && (forall v: Value, u: string :: env.uuidOf(v) == Some(u) ==> env.uuidOf(Text(u)) == Some(u))
    && (forall t: int :: env.instantOf(Text(env.iso(t))) == Some(t))
  }

  // ----- field authority

  predicate IsMetadata(f: Field) {
    f.Id? || f.CreatedAt? || f.UpdatedAt? || f.SyncVersion? || f.SyncIdentity?
  }

  predicate IsCounterEventField(f: Field) {
    f.Id? || f.SyncContract? || f.EventId? || f.EventKind? || f.EventEpoch? || f.EventDeltas? || f.EventOccurredAt? || f.SyncIdentity?
  }

  /** Membership in `allowed_user_fields_for_source`. */
  predicate Allowed(source: Server, f: Field) {
    match source
    case Iran => f.IranField? || f.Username? || f.LastSeenAt? || IsMetadata(f)
    case Foreign => f.ForeignField? || f.Username? || f.LastSeenAt? || IsMetadata(f)
    case UnknownServer => false
  }

  /** Who may write what: both servers share the user name, the last visit and the metadata; everything else has one
  writer; counters, legacy aliases and local columns have none, and unknown servers write nothing. */
  lemma AuthorityIsSeparate(f: Field)
    ensures Allowed(Iran, f) && Allowed(Foreign, f) <==> f.Username? || f.LastSeenAt? || IsMetadata(f)
    ensures f.IranField? ==> Allowed(Iran, f) && !Allowed(Foreign, f)
    ensures f.ForeignField? ==> Allowed(Foreign, f) && !Allowed(Iran, f)
    ensures f.CounterField? || f.CounterEpoch? || f.GlobalLockGraceExpiresAt? || f.GlobalWebLockedAt? || f.LocalField? || f.Other? ==>
              !Allowed(Iran, f) && !Allowed(Foreign, f)
    ensures !Allowed(UnknownServer, f)
  {
  }

  // ----- the field policy

  /** What the policy entry of a field says; a field without an entry is kept. */
  datatype Action = Keep | Drop | Hash(output: Field)

  type Policy = Field -> Action

  /** One turn of the loop of `sanitize_sync_payload`. */
  function FilterOne(hash: Value -> Value, p: Policy, key: Field, value: Value, result: Payload): Payload {
    match p(key)
    case Keep => result[key := value]
    case Drop => result
    case Hash(output) => result[output := hash(value)]
  }

  function Filtered(hash: Value -> Value, p: Policy, data: Payload, keys: seq<Field>): Payload
    requires forall f | f in keys :: f in data
  {
    if keys == [] then map[]
    else
      var last := keys[|keys| - 1];
      FilterOne(hash, p, last, data[last], Filtered(hash, p, data, keys[..|keys| - 1]))
  }

  /** `sanitize_sync_payload`; `keys` is the key order of the payload. */
  method SanitizeSyncPayload(hash: Value -> Value, p: Policy, data: Payload, keys: seq<Field>) returns (result: Payload)
    requires forall f | f in keys :: f in data
    ensures result == Filtered(hash, p, data, keys)
  {
    result := map[];
    for i := 0 to |keys|
      invariant result == Filtered(hash, p, data, keys[..i])
    {
      var key := keys[i];
      assert keys[..i + 1][..i] == keys[..i];
      match p(key)
      case Keep => result := result[key := data[key]];
      case Drop =>
      case Hash(output) => result := result[output := hash(data[key])];
    }
    assert keys[..|keys|] == keys;
  }

  /** The name under which the policy lets a field through, if it does. */
  function OutputOf(p: Policy, key: Field): Option<Field> {
    match p(key) case Keep => Some(key) case Drop => None case Hash(output) => Some(output)
  }

  ghost predicate OutputsDiffer(p: Policy, keys: seq<Field>) {
    forall i, j | 0 <= i < j < |keys| && OutputOf(p, keys[i]).Some? :: OutputOf(p, keys[i]) != OutputOf(p, keys[j])
  }

  ghost predicate Comes(p: Policy, keys: seq<Field>, out: Field) {
    exists k :: k in keys && OutputOf(p, k) == Some(out)
  }

  /** The result holds nothing but outputs of its fields. */
  lemma {:induction false} FilteredComes(hash: Value -> Value, p: Policy, data: Payload, keys: seq<Field>, out: Field)
    requires (forall f | f in keys :: f in data) && out in Filtered(hash, p, data, keys)
    ensures Comes(p, keys, out)
  {
    if keys != [] {
      var front, last := keys[..|keys| - 1], keys[|keys| - 1];
      assert last in keys;
      if OutputOf(p, last) != Some(out) {
        FilteredComes(hash, p, data, front, out);
        var k :| k in front && OutputOf(p, k) == Some(out);
        assert k in keys;
      }
    }
  }

  /** Where no two fields share an output, a field comes out under its own: the value of a kept field, the hash of a
  hashed one; a field that is dropped, or hashed under another name, does not come out at all. */
  lemma {:induction false} FilteredValue(hash: Value -> Value, p: Policy, data: Payload, keys: seq<Field>, k: Field, out: Field)
    requires (forall f | f in keys :: f in data) && OutputsDiffer(p, keys) && k in keys && OutputOf(p, k) == Some(out)
    ensures out in Filtered(hash, p, data, keys)
    ensures Filtered(hash, p, data, keys)[out] == if p(k).Hash? then hash(data[k]) else data[k]
  {
    var front, last := keys[..|keys| - 1], keys[|keys| - 1];
    if k in front {
      var i :| 0 <= i < |front| && front[i] == k;
      assert OutputOf(p, keys[i]) != OutputOf(p, last);
      FilteredValue(hash, p, data, front, k, out);
    } else {
      assert k == last;
    }
  }

  /** The entries of `users` in the policy table: five columns are dropped, none is hashed. */
  function UsersPolicy(f: Field): Action {
    if f.LocalField? then Drop else Keep
  }

  function AfterUsersPolicy(data: Payload): Payload {
    map f | f in data && !f.LocalField? :: data[f]
  }

  /** For `users` the loop is a plain filter, whatever the key order. */
  lemma {:induction false} UsersPolicyFilters(hash: Value -> Value, data: Payload, keys: seq<Field>)
    requires forall f | f in keys :: f in data
    ensures Filtered(hash, UsersPolicy, data, keys) == map f | f in data && f in keys && !f.LocalField? :: data[f]
  {
    if keys != [] {
      UsersPolicyFilters(hash, data, keys[..|keys| - 1]);
      assert keys == keys[..|keys| - 1] + [keys[|keys| - 1]];
    }
  }

  // ----- the receiver

  datatype Reason =
    | InvalidSource | UnversionedForbidden | InvalidVersion | SourceForbidden | IdentityMissing
    | OperationForbidden | InvalidEventMetadata | InvalidEventPayload | ResetSourceForbidden | UnknownEventField | EventIdentityMissing

  datatype Decision = Accepted(data: Payload, dropped: set<Field>) | Rejected(reason: Reason)

  function Get(data: Payload, f: Field): Value {
    if f in data then data[f] else Null
  }

  /** account_name, mobile_number and telegram_id. */
  const NATURAL_KEYS := {AccountName, MobileNumber, TelegramId}

  predicate NamesSomeone(section: Value) {
    section.Object? && exists c | c in NATURAL_KEYS ::
      var k := Natural(c); k in section.entries && section.entries[k] != Null && section.entries[k] != Text("")
  }

  /** `_has_user_sync_identity`. */
  predicate HasIdentity(v: Value) {
    v.Object? && ((Current in v.entries && NamesSomeone(v.entries[Current]))
                  || (Previous in v.entries && NamesSomeone(v.entries[Previous])))
  }

  const CONTRACT := Text("user_counter_event_v2")
  const MAX_VALUE := 2_147_483_647
  const MAX_EPOCH := 9_223_372_036_854_775_807

  predicate IsCounterEvent(data: Payload) {
    Get(data, SyncContract) == CONTRACT
  }

  /** Deltas are integers of the known counters in range; increments add something, resets nothing. */
  predicate ValidDeltas(kind: string, deltas: Value) {
    && deltas.Object?
    && (forall k | k in deltas.entries :: deltas.entries[k].Int?)
    && (forall k | k in deltas.entries :: k.Counter?)
    && (forall k | k in deltas.entries :: 0 <= deltas.entries[k].n <= MAX_VALUE)
    && (kind == "increment" ==> exists k | k in deltas.entries :: deltas.entries[k].n > 0)
    && (kind == "reset" ==> forall k | k in deltas.entries :: deltas.entries[k].n == 0)
  }

  function KindOf(data: Payload): string {
    if Get(data, EventKind).Text? then Get(data, EventKind).s else ""
  }

  /** The checks of `_sanitize_user_counter_event`, in their order. */
  function CounterEventFault(env: Env, operation: Operation, data: Payload, source: Server): (fault: Option<Reason>)
    ensures fault.None? ==> env.uuidOf(Get(data, EventId)).Some? && env.instantOf(Get(data, EventOccurredAt)).Some?
  {
    var epoch, instant, kind := Get(data, EventEpoch), env.instantOf(Get(data, EventOccurredAt)), KindOf(data);
    if operation != Update then Some(OperationForbidden)
    else if env.uuidOf(Get(data, EventId)).None? || !epoch.Int? || instant.None? then Some(InvalidEventMetadata)
    else if epoch.n < 1 || epoch.n > MAX_EPOCH || instant.value > env.latestPlausible then Some(InvalidEventMetadata)
    else if (kind != "increment" && kind != "reset") || !Get(data, EventDeltas).Object? then Some(InvalidEventPayload)
    else if kind == "reset" && source != Iran then Some(ResetSourceForbidden)
    else if !ValidDeltas(kind, Get(data, EventDeltas)) then Some(InvalidEventPayload)
    else if exists f | f in data :: !IsCounterEventField(f) then Some(UnknownEventField)
    else if !HasIdentity(Get(data, SyncIdentity)) then Some(EventIdentityMissing)
    else None
  }

  function CounterEventData(env: Env, data: Payload): (d: Payload)
    requires env.uuidOf(Get(data, EventId)).Some? && env.instantOf(Get(data, EventOccurredAt)).Some?
    ensures data.Keys - d.Keys == {} && IsCounterEvent(d)
  {
    data[SyncContract := CONTRACT]
        [EventId := Text(env.uuidOf(Get(data, EventId)).value)]
        [EventEpoch := Get(data, EventEpoch)]
        [EventKind := Text(KindOf(data))]
        [EventDeltas := Get(data, EventDeltas)]
        [EventOccurredAt := Text(env.iso(env.instantOf(Get(data, EventOccurredAt)).value))]
  }

  /** `_sanitize_user_counter_event`. */
  function ReceiveCounterEvent(env: Env, operation: Operation, data: Payload, source: Server): Decision {
    var fault := CounterEventFault(env, operation, data, source);
    if fault.Some? then Rejected(fault.value)
    else Accepted(CounterEventData(env, data), data.Keys - CounterEventData(env, data).Keys)
  }

  /** `sanitize_registration_sync_payload`. */
  function Receive(env: Env, table: Table, operation: Operation, data: Payload, source: Server, v2: bool, acceptUnversioned: bool): Decision {
    if !v2 || table == Unversioned then Accepted(data, {})
    else if source == UnknownServer then Rejected(InvalidSource)
    else if table == Users && IsCounterEvent(data) then ReceiveCounterEvent(env, operation, data, source)
    else
      var hasVersion := Get(data, SyncVersion) != Null;
      var version := env.intOf(Get(data, SyncVersion));
      if !hasVersion && !acceptUnversioned then Rejected(UnversionedForbidden)
      else if hasVersion && (version.None? || version.value < 1) then Rejected(InvalidVersion)
      else
        var payload := if hasVersion then data[SyncVersion := Int(version.value)] else data;
        if table != Users then
          if source != Iran then Rejected(SourceForbidden) else Accepted(payload, {})
        else if operation != Update && source != Iran then Rejected(SourceForbidden)
        else if hasVersion && !HasIdentity(Get(payload, SyncIdentity)) then Rejected(IdentityMissing)
        else
          var sanitized := map f | f in payload && Allowed(source, f) :: payload[f];
          Accepted(sanitized, payload.Keys - sanitized.Keys)
  }

  lemma CounterEventDataStable(env: Env, data: Payload)
    requires Lawful(env) && env.uuidOf(Get(data, EventId)).Some? && env.instantOf(Get(data, EventOccurredAt)).Some?
    ensures var d := CounterEventData(env, data);
            && env.uuidOf(Get(d, EventId)).Some? && env.instantOf(Get(d, EventOccurredAt)).Some?
            && env.instantOf(Get(d, EventOccurredAt)) == env.instantOf(Get(data, EventOccurredAt))
            && Get(d, EventEpoch) == Get(data, EventEpoch) && KindOf(d) == KindOf(data)
            && Get(d, EventDeltas) == Get(data, EventDeltas) && Get(d, SyncIdentity) == Get(data, SyncIdentity)
            && CounterEventData(env, d) == d
  {
    var t := env.instantOf(Get(data, EventOccurredAt)).value;
    assert env.instantOf(Text(env.iso(t))) == Some(t);
  }

  lemma CounterEventFieldsOnly(env: Env, data: Payload)
    requires env.uuidOf(Get(data, EventId)).Some? && env.instantOf(Get(data, EventOccurredAt)).Some?
    requires forall f | f in data :: IsCounterEventField(f)
    ensures forall f | f in CounterEventData(env, data) :: IsCounterEventField(f)
  {
  }

  lemma SameFault(env: Env, operation: Operation, data: Payload, d: Payload, source: Server)
    requires CounterEventFault(env, operation, data, source).None? && forall f | f in d :: IsCounterEventField(f)
    requires env.uuidOf(Get(d, EventId)).Some? && env.instantOf(Get(d, EventOccurredAt)) == env.instantOf(Get(data, EventOccurredAt))
    requires Get(d, EventEpoch) == Get(data, EventEpoch) && KindOf(d) == KindOf(data)
    requires Get(d, EventDeltas) == Get(data, EventDeltas) && Get(d, SyncIdentity) == Get(data, SyncIdentity)
    ensures CounterEventFault(env, operation, d, source).None?
  {
  }

  lemma CounterEventStillValid(env: Env, operation: Operation, data: Payload, source: Server)
    requires Lawful(env) && CounterEventFault(env, operation, data, source).None?
    ensures CounterEventFault(env, operation, CounterEventData(env, data), source).None?
  {
    CounterEventDataStable(env, data);
    CounterEventFieldsOnly(env, data);
    SameFault(env, operation, data, CounterEventData(env, data), source);
  }

  /** Sanitizing an accepted counter event again changes nothing, and nothing is dropped. */
  lemma CounterEventIdempotent(env: Env, operation: Operation, data: Payload, source: Server)
    requires Lawful(env) && CounterEventFault(env, operation, data, source).None?
    ensures var d := CounterEventData(env, data);
            ReceiveCounterEvent(env, operation, d, source) == Accepted(d, {})
  {
    CounterEventDataStable(env, data);
    CounterEventStillValid(env, operation, data, source);
  }

  lemma PatchIdempotent(env: Env, table: Table, operation: Operation, data: Payload, source: Server, acceptUnversioned: bool)
    requires Lawful(env) && table != Unversioned && !(table == Users && IsCounterEvent(data))
    requires Receive(env, table, operation, data, source, true, acceptUnversioned).Accepted?
    ensures var d := Receive(env, table, operation, data, source, true, acceptUnversioned).data;
            Receive(env, table, operation, d, source, true, acceptUnversioned) == Accepted(d, {})
  {
    var d := Receive(env, table, operation, data, source, true, acceptUnversioned).data;
    assert SyncVersion in d ==> d[SyncVersion := d[SyncVersion]] == d;
    if table == Users {
      assert (map f | f in d && Allowed(source, f) :: d[f]) == d;
    }
  }

  /** The receiver is idempotent: sanitizing an accepted payload again accepts it unchanged. */
  lemma ReceiveIdempotent(env: Env, table: Table, operation: Operation, data: Payload, source: Server, v2: bool, acceptUnversioned: bool)
    requires Lawful(env)
    ensures var first := Receive(env, table, operation, data, source, v2, acceptUnversioned);
            first.Accepted? ==> Receive(env, table, operation, first.data, source, v2, acceptUnversioned) == Accepted(first.data, {})
  {
    var first := Receive(env, table, operation, data, source, v2, acceptUnversioned);
    if first.Accepted? && v2 && table != Unversioned {
      if table == Users && IsCounterEvent(data) {
        CounterEventIdempotent(env, operation, data, source);
      } else {
        PatchIdempotent(env, table, operation, data, source, acceptUnversioned);
      }
    }
  }

  /** The receiver enforces authority: a user patch or row is accepted exactly when its source is known and may
  perform the operation, and it is versioned and identified or unversioned events are still let in. What is
  accepted are the fields that the source may write, with their values; everything else is reported as dropped. */
  lemma AcceptedExactlyWhen(env: Env, operation: Operation, data: Payload, source: Server, acceptUnversioned: bool)
    requires Lawful(env) && !IsCounterEvent(data)
    ensures var d, version := Receive(env, Users, operation, data, source, true, acceptUnversioned), Get(data, SyncVersion);
            && (d.Accepted? <==>
                  && source != UnknownServer && (operation == Update || source == Iran)
                  && (if version == Null then acceptUnversioned
                      else env.intOf(version).Some? && env.intOf(version).value >= 1 && HasIdentity(Get(data, SyncIdentity))))
            && (d.Accepted? ==>
                  && (forall f :: f in d.data <==> f in data && Allowed(source, f))
                  && (forall f | f in d.data :: d.data[f] == data[f] || (f == SyncVersion && d.data[f].Int? && d.data[f].n >= 1))
                  && d.dropped == data.Keys - d.data.Keys)
  {
  }

  /** The other versioned tables have one writer, Iran, and their rows pass whole; without v2, and for unversioned
  tables, everything passes as it is. */
  lemma OtherTablesExactlyWhen(env: Env, table: Table, operation: Operation, data: Payload, source: Server, v2: bool, acceptUnversioned: bool)
    requires table != Users || !v2
    ensures var d, version := Receive(env, table, operation, data, source, v2, acceptUnversioned), Get(data, SyncVersion);
            && (!v2 || table == Unversioned ==> d == Accepted(data, {}))
            && (v2 && table == OtherVersioned ==>
                  && (d.Accepted? <==>
                        && source == Iran
                        && (if version == Null then acceptUnversioned else env.intOf(version).Some? && env.intOf(version).value >= 1))
                  && (d.Accepted? ==>
                        && d.dropped == {} && d.data.Keys == data.Keys
                        && forall f | f in data && f != SyncVersion :: d.data[f] == data[f]))
  {
  }

  /** The deltas of a counter event: integers in range of known counters; an increment adds something, a reset nothing. */
  ghost predicate DeltasOk(kind: string, deltas: map<Name, Value>) {
    && (forall k | k in deltas :: k.Counter? && deltas[k].Int? && 0 <= deltas[k].n <= 2_147_483_647)
    && (if kind == "increment" then exists k :: k in deltas && deltas[k].n != 0 else forall k | k in deltas :: deltas[k].n == 0)
  }

  /** The receiver takes a counter event exactly when it is an update with a proper id, epoch, instant, kind, source, deltas
  and identity, and with no other field; resets come from Iran only. */
  lemma EventAcceptedExactlyWhen(env: Env, operation: Operation, data: Payload, source: Server, acceptUnversioned: bool)
    requires IsCounterEvent(data) && source != UnknownServer
    ensures Receive(env, Users, operation, data, source, true, acceptUnversioned).Accepted? <==>
            && operation == Update && env.uuidOf(Get(data, EventId)).Some?
            && Get(data, EventEpoch).Int? && 1 <= Get(data, EventEpoch).n <= 9_223_372_036_854_775_807
            && env.instantOf(Get(data, EventOccurredAt)).Some? && env.instantOf(Get(data, EventOccurredAt)).value <= env.latestPlausible
            && (Get(data, EventKind) == Text("increment") || (Get(data, EventKind) == Text("reset") && source == Iran))
            && Get(data, EventDeltas).Object? && DeltasOk(KindOf(data), Get(data, EventDeltas).entries)
            && (forall f | f in data :: IsCounterEventField(f)) && HasIdentity(Get(data, SyncIdentity))
  {
    if Get(data, EventDeltas).Object? { DeltasExactlyWhen(KindOf(data), Get(data, EventDeltas)); }
  }

  lemma DeltasExactlyWhen(kind: string, deltas: Value)
    requires deltas.Object?
    ensures kind == "increment" || kind == "reset" ==> (ValidDeltas(kind, deltas) <==> DeltasOk(kind, deltas.entries))
  {
  }

  // ----- the producer

  type UserRow = map<Field, Value>

  /** The fields of `build_user_sync_payload` that are columns, besides created_at and updated_at. */
  predicate IsEmitted(f: Field) {
    f.Id? || f.SyncVersion? || f.IranField? || f.Username? || f.ForeignField? || f.LastSeenAt? || f.CounterField? || f.CounterEpoch?
  }

  /** A mapped user has a value for every emitted column and both time stamps. */
  ghost predicate Complete(row: UserRow) {
    CreatedAt in row && UpdatedAt in row && forall f | IsEmitted(f) :: f in row
  }

  /** `int(x or 1)`. */
  function VersionOf(row: UserRow): int {
    match Get(row, SyncVersion) case Int(n) => if n == 0 then 1 else n case _ => 1
  }

  /** A version that is missing, null or 0 is sent as 1, every other as it is. */
  lemma VersionRead(row: UserRow)
    ensures SyncVersion !in row || row[SyncVersion] == Null || row[SyncVersion] == Int(0) ==> VersionOf(row) == 1
    ensures SyncVersion in row && row[SyncVersion].Int? && row[SyncVersion].n != 0 ==> row[SyncVersion] == Int(VersionOf(row))
  {
  }

  /** `build_user_sync_payload`. */
  function UserPayload(row: UserRow, includeCreatedAt: bool): Payload {
    (map f | f in row && (IsEmitted(f) || f == if includeCreatedAt then CreatedAt else UpdatedAt) :: row[f])
      [SyncVersion := Int(VersionOf(row))]
      [GlobalLockGraceExpiresAt := Get(row, IranField(MessengerGraceExpiresAt))]
      [GlobalWebLockedAt := Get(row, IranField(MessengerBlockedAt))]
  }

  function PresentKeys(row: UserRow): map<Name, Value> {
    map c | c in NATURAL_KEYS && Get(row, IranField(c)) != Null :: Natural(c) := Get(row, IranField(c))
  }

  /** `build_user_sync_identity`; `previous` are the old values of changed identity fields. */
  function IdentityValue(row: UserRow, previous: map<Name, Value>): Value {
    Object(map[Current := Object(PresentKeys(row)), Previous := Object(previous)])
  }

  /** The v2 payload of after_insert; None when the server has no authority to insert. */
  function InsertPayload(server: Server, row: UserRow): Option<Payload> {
    if server != Iran then None
    else
      var data := UserPayload(row, true);
      Some((map f | f in data && Allowed(server, f) :: data[f])[SyncIdentity := IdentityValue(row, map[])])
  }

  /** Only Iran sends inserts; a foreign insert writes no row and is left to the guard. */
  lemma OnlyIranInserts(server: Server, row: UserRow)
    ensures InsertPayload(server, row).Some? <==> server == Iran
  {
  }

  predicate IsPatchMetadata(f: Field) {
    f.Id? || f.SyncVersion? || f.UpdatedAt?
  }

  /** The data of after_update before the identity is added. */
  function PatchData(server: Server, row: UserRow, changed: set<Field>): Payload {
    var data := UserPayload(row, false);
    map f | f in data && ((f in changed && Allowed(server, f)) || IsPatchMetadata(f)) && !f.CounterField? :: data[f]
  }

  /** The v2 patch of after_update; None when it would carry metadata only. */
  function UpdatePatch(server: Server, row: UserRow, changed: set<Field>, previous: map<Name, Value>): Option<Payload> {
    var patch := PatchData(server, row, changed);
    if forall f | f in patch :: IsPatchMetadata(f) then None
    else Some(patch[SyncIdentity := IdentityValue(row, previous)])
  }

  /** The columns whose change an update patch of the server can carry. */
  predicate InPatch(server: Server, f: Field) {
    Allowed(server, f) && IsEmitted(f) && !IsPatchMetadata(f)
  }

  /** Every field that a server may write reaches the payload, so none is silently left behind. */
  lemma AuthorisedFieldsAreEmitted(server: Server, f: Field)
    requires Allowed(server, f) && f != CreatedAt && f != UpdatedAt && f != SyncIdentity
    ensures IsEmitted(f)
  {
  }

  ghost predicate HasText(v: Value) {
    v != Null && v != Text("")
  }

  /** The user has, or had before the change, an account name, a mobile number or a Telegram id. */
  ghost predicate Identified(row: UserRow, previous: map<Name, Value>) {
    exists c :: c in {AccountName, MobileNumber, TelegramId} &&
      ((IranField(c) in row && HasText(row[IranField(c)])) || (Natural(c) in previous && HasText(previous[Natural(c)])))
  }

  /** What the producer sends as identity satisfies the receiver exactly for identified users. */
  lemma SentIdentityExactlyWhen(row: UserRow, previous: map<Name, Value>)
    ensures HasIdentity(IdentityValue(row, previous)) <==> Identified(row, previous)
  {
    CurrentNames(row);
    SectionNames(previous);
  }

  ghost predicate NamedIn(entries: map<Name, Value>) {
    exists c :: c in {AccountName, MobileNumber, TelegramId} && Natural(c) in entries && HasText(entries[Natural(c)])
  }

  lemma SectionNames(entries: map<Name, Value>)
    ensures NamesSomeone(Object(entries)) <==> NamedIn(entries)
  {
    if NamedIn(entries) {
      var c :| c in {AccountName, MobileNumber, TelegramId} && Natural(c) in entries && HasText(entries[Natural(c)]);
      assert c in NATURAL_KEYS;
    }
  }

  lemma CurrentNames(row: UserRow)
    ensures NamesSomeone(Object(PresentKeys(row))) <==>
            exists c :: c in {AccountName, MobileNumber, TelegramId} && IranField(c) in row && HasText(row[IranField(c)])
  {
    SectionNames(PresentKeys(row));
    forall c | c in {AccountName, MobileNumber, TelegramId}
      ensures Natural(c) in PresentKeys(row) && HasText(PresentKeys(row)[Natural(c)]) <==> IranField(c) in row && HasText(row[IranField(c)])
    {
    }
  }

  /** The payload of a user, column by column. */
  lemma PayloadAt(row: UserRow, includeCreatedAt: bool, f: Field)
    requires Complete(row)
    ensures var data := UserPayload(row, includeCreatedAt);
            && (f in data <==> IsEmitted(f) || f == (if includeCreatedAt then CreatedAt else UpdatedAt)
                               || f == GlobalLockGraceExpiresAt || f == GlobalWebLockedAt)
            && (f in data && f in row && f != SyncVersion && f != GlobalLockGraceExpiresAt && f != GlobalWebLockedAt ==> data[f] == row[f])
            && (f == SyncVersion ==> data[f] == Int(VersionOf(row)))
  {
  }

  /** A patch carries the changed columns that the server is authorised for, with the row's values, and the metadata;
  nothing else. */
  lemma PatchCarries(server: Server, row: UserRow, changed: set<Field>, previous: map<Name, Value>, data: Payload, f: Field)
    requires server != UnknownServer && Complete(row) && UpdatePatch(server, row, changed, previous) == Some(data)
    ensures f in data <==> f == SyncIdentity || f == SyncVersion || f == Id || f == UpdatedAt || (f in changed && InPatch(server, f))
    ensures f in data && f != SyncIdentity && f != SyncVersion ==> f in row && data[f] == row[f]
    ensures f == SyncVersion ==> data[f] == Int(VersionOf(row))
    ensures f == SyncIdentity ==> data[f] == IdentityValue(row, previous)
  {
    PayloadAt(row, false, f);
  }

  /** An insert carries every column that Iran is authorised for, with the row's values, and the metadata. */
  lemma InsertCarries(row: UserRow, data: Payload, f: Field)
    requires Complete(row) && InsertPayload(Iran, row) == Some(data)
    ensures f in data <==> f == SyncIdentity || f == CreatedAt || (IsEmitted(f) && Allowed(Iran, f))
    ensures f in data && f != SyncIdentity && f != SyncVersion ==> f in row && data[f] == row[f]
    ensures f == SyncVersion ==> data[f] == Int(VersionOf(row))
    ensures f == SyncIdentity ==> data[f] == IdentityValue(row, map[])
  {
    PayloadAt(row, true, f);
  }

  /** A peer's row after the columns of a payload are set. */
  function SetColumns(peer: UserRow, data: Payload): UserRow {
    peer + (map f | f in data && f != SyncIdentity :: data[f])
  }

  /** Setting the columns of the patch makes the peer's row equal on exactly the changed authorised columns and the
  metadata, and leaves the others alone. */
  lemma PatchReproducesChange(server: Server, row: UserRow, changed: set<Field>, previous: map<Name, Value>, data: Payload, peer: UserRow, f: Field)
    requires server != UnknownServer && Complete(row) && UpdatePatch(server, row, changed, previous) == Some(data) && f != SyncIdentity
    ensures var peer' := SetColumns(peer, data);
            if f == SyncVersion then f in peer' && peer'[f] == Int(VersionOf(row))
            else if (f in changed && InPatch(server, f)) || f == Id || f == UpdatedAt then f in peer' && peer'[f] == row[f]
            else (f in peer' <==> f in peer) && (f in peer ==> peer'[f] == peer[f])
  {
    PatchCarries(server, row, changed, previous, data, f);
  }

  /** A patch is sent exactly when an emitted column that the server is authorised for has changed. */
  lemma PatchExactlyWhen(server: Server, row: UserRow, changed: set<Field>, previous: map<Name, Value>)
    requires Complete(row)
    ensures UpdatePatch(server, row, changed, previous).Some? <==> exists f :: f in changed && InPatch(server, f)
  {
    var patch := PatchData(server, row, changed);
    forall f ensures f in patch && !IsPatchMetadata(f) <==> f in changed && InPatch(server, f) {
    }
  }

  // ----- agreement

  /** The field policy keeps every field that a server may send. */
  lemma PolicyKeepsAllowed(source: Server, data: Payload)
    requires forall f | f in data :: Allowed(source, f)
    ensures AfterUsersPolicy(data) == data
  {
  }

  /** A payload within the fields its server may send, versioned and identified, passes the receiver
  untouched. */
  lemma SentPayloadAccepted(env: Env, operation: Operation, data: Payload, source: Server, acceptUnversioned: bool)
    requires Lawful(env) && source != UnknownServer && (operation != Update ==> source == Iran)
    requires forall f | f in data :: Allowed(source, f)
    requires Get(data, SyncVersion).Int? && Get(data, SyncVersion).n >= 1 && HasIdentity(Get(data, SyncIdentity))
    ensures Receive(env, Users, operation, data, source, true, acceptUnversioned) == Accepted(data, {})
  {
    assert !IsCounterEvent(data) by { assert !Allowed(source, SyncContract); }
    assert data[SyncVersion := Int(data[SyncVersion].n)] == data;
    AllowedAllKept(source, data);
  }

  lemma AllowedAllKept(source: Server, data: Payload)
    requires forall f | f in data :: Allowed(source, f)
    ensures (map f | f in data && Allowed(source, f) :: data[f]) == data
  {
  }

  /** Every v2 insert of an identified user with a version of at least 1 is accepted whole. */
  lemma InsertAccepted(env: Env, row: UserRow, acceptUnversioned: bool)
    requires Lawful(env) && VersionOf(row) >= 1 && Identified(row, map[])
    ensures var data := InsertPayload(Iran, row).value;
            Receive(env, Users, Insert, AfterUsersPolicy(data), Iran, true, acceptUnversioned) == Accepted(data, {})
  {
    var data := InsertPayload(Iran, row).value;
    SentIdentityExactlyWhen(row, map[]);
    PolicyKeepsAllowed(Iran, data);
    SentPayloadAccepted(env, Insert, data, Iran, acceptUnversioned);
  }

  /** Every v2 update patch of either server, under the same conditions, is accepted whole. */
  lemma UpdateAccepted(env: Env, server: Server, row: UserRow, changed: set<Field>, previous: map<Name, Value>, acceptUnversioned: bool)
    requires Lawful(env) && server != UnknownServer && VersionOf(row) >= 1
    requires UpdatePatch(server, row, changed, previous).Some? && Identified(row, previous)
    ensures var data := UpdatePatch(server, row, changed, previous).value;
            Receive(env, Users, Update, AfterUsersPolicy(data), server, true, acceptUnversioned) == Accepted(data, {})
  {
    var data := UpdatePatch(server, row, changed, previous).value;
    PatchIsAllowed(server, row, changed, previous, data);
    SentIdentityExactlyWhen(row, previous);
    PolicyKeepsAllowed(server, data);
    SentPayloadAccepted(env, Update, data, server, acceptUnversioned);
  }

  lemma PatchIsAllowed(server: Server, row: UserRow, changed: set<Field>, previous: map<Name, Value>, data: Payload)
    requires server != UnknownServer && UpdatePatch(server, row, changed, previous) == Some(data)
    ensures forall f | f in data :: Allowed(server, f)
    ensures Get(data, SyncVersion) == Int(VersionOf(row)) && Get(data, SyncIdentity) == IdentityValue(row, previous)
  {
  }

  // ----- counter events on the wire

  /** The contents of a counter event. */
  datatype EventContent = EventContent(id: int, eventId: string, kind: string, epoch: int, deltas: map<Name, Value>, occurredAt: int, identity: Value)

  /** `user_counter_event_payload`. */
  function EventPayload(env: Env, e: EventContent): Payload {
    map[
      Id := Int(e.id), SyncContract := CONTRACT, EventId := Text(e.eventId), EventKind := Text(e.kind), EventEpoch := Int(e.epoch),
      EventDeltas := Object(e.deltas), EventOccurredAt := Text(env.iso(e.occurredAt)), SyncIdentity := e.identity]
  }

  /** `data` carries exactly the contents of the event. */
  ghost predicate Carries(env: Env, data: Payload, e: EventContent) {
    && (forall f | f in data :: IsCounterEventField(f) && !f.LocalField?)
    && SyncContract in data && EventId in data && EventKind in data && EventEpoch in data && EventDeltas in data
    && EventOccurredAt in data && SyncIdentity in data
    && data[SyncContract] == CONTRACT && data[EventId] == Text(e.eventId) && data[EventKind] == Text(e.kind)
    && data[EventEpoch] == Int(e.epoch) && data[EventDeltas] == Object(e.deltas)
    && data[EventOccurredAt] == Text(env.iso(e.occurredAt)) && data[SyncIdentity] == e.identity
  }

  lemma PayloadCarries(env: Env, e: EventContent)
    ensures Carries(env, EventPayload(env, e), e)
  {
  }

  /** What the receiver asks of a counter event. */
  ghost predicate Acceptable(env: Env, e: EventContent, source: Server) {
    && env.uuidOf(Text(e.eventId)) == Some(e.eventId)
    && 1 <= e.epoch <= MAX_EPOCH && e.occurredAt <= env.latestPlausible
    && (e.kind == "increment" || (e.kind == "reset" && source == Iran))
    && ValidDeltas(e.kind, Object(e.deltas)) && HasIdentity(e.identity)
  }

  lemma AcceptableHasNoFault(env: Env, data: Payload, e: EventContent, source: Server)
    requires Lawful(env) && Carries(env, data, e) && Acceptable(env, e, source)
    ensures CounterEventFault(env, Update, data, source).None?
  {
    assert env.instantOf(Text(env.iso(e.occurredAt))) == Some(e.occurredAt);
  }

  lemma CarriedIsNormal(env: Env, data: Payload, e: EventContent)
    requires Lawful(env) && Carries(env, data, e) && env.uuidOf(Text(e.eventId)) == Some(e.eventId)
    ensures env.instantOf(Get(data, EventOccurredAt)).Some? && CounterEventData(env, data) == data
  {
  }

  /** An acceptable counter event passes the field policy and the receiver untouched. */
  lemma EventAccepted(env: Env, e: EventContent, source: Server, acceptUnversioned: bool)
    requires Lawful(env) && Acceptable(env, e, source) && source != UnknownServer
    ensures var data := EventPayload(env, e);
            Receive(env, Users, Update, AfterUsersPolicy(data), source, true, acceptUnversioned) == Accepted(data, {})
  {
    PayloadCarries(env, e);
    CarriedAccepted(env, EventPayload(env, e), e, source, acceptUnversioned);
  }

  lemma CarriedAccepted(env: Env, data: Payload, e: EventContent, source: Server, acceptUnversioned: bool)
    requires Lawful(env) && Carries(env, data, e) && Acceptable(env, e, source) && source != UnknownServer
    ensures Receive(env, Users, Update, AfterUsersPolicy(data), source, true, acceptUnversioned) == Accepted(data, {})
  {
    CarriedKept(env, data, e);
    AcceptableHasNoFault(env, data, e, source);
    CarriedIsNormal(env, data, e);
  }

  lemma CarriedKept(env: Env, data: Payload, e: EventContent)
    requires Carries(env, data, e)
    ensures AfterUsersPolicy(data) == data && IsCounterEvent(data)
  {
  }
}
