/** Parity snapshots of core/sync_parity.py: rows become hashed records, sorted by identity hash.

Rows hold canonical values (what `_canonical_value` yields). SHA-256 digests are naturals, ordered like
the hex strings they stand for; hashing is a `Hasher`. The static tables are a `Policy`. */
module Parity {
  import opened Wrappers

  datatype Value = Null | Text(text: string) | Json(canonical: string)

  type Row = map<string, Value>

  type Digest = nat

  datatype Identity = Identity(table: string, fields: seq<string>, values: map<string, Value>)

  /** `build_record_parity`: hashes only, never raw values. */
  datatype Record = Record(identityHash: Digest, businessHash: Digest, localOnlyHash: Digest, volatileHash: Digest)

  datatype Hasher = Hasher(identity: Identity -> Digest, fields: Row -> Digest, records: seq<Record> -> Digest)

  datatype Policy = Policy(
    identityFields: map<string, seq<string>>,
    volatileFields: map<string, set<string>>,
    localOnlyFields: map<string, set<string>>,
    noSync: set<(string, string)>)

  ghost predicate Injective(h: Hasher) {
    && (forall a: Identity, b: Identity :: h.identity(a) == h.identity(b) ==> a == b)
    && (forall a: Row, b: Row :: h.fields(a) == h.fields(b) ==> a == b)
  }

  // ----- identities and field classes

  function Get(row: Row, field: string): Value {
    if field in row then row[field] else Null
  }

  predicate Blank(v: Value) {
    v == Null || v == Text("")
  }

  const FALLBACK_IDENTITY_FIELDS := ["id"]

  function IdentityFields(p: Policy, table: string, row: Row): seq<string> {
    if table in p.identityFields && p.identityFields[table] != [] then
      var configured := p.identityFields[table];
      if forall f | f in configured :: !Blank(Get(row, f)) then configured
      else if table == "notifications" && !Blank(Get(row, "id")) then ["id"]
      else FALLBACK_IDENTITY_FIELDS
    else FALLBACK_IDENTITY_FIELDS
  }

  function IdentityOf(p: Policy, table: string, row: Row): Identity {
    var fields := IdentityFields(p, table, row);
    Identity(table, fields, map f | f in fields :: Get(row, f))
  }

  datatype FieldClass = Business | LocalOnly | Volatile

  function SetOf(m: map<string, set<string>>, table: string): set<string> {
    if table in m then m[table] else {}
  }

  /** The bucket of one field; the database id is local when another identity is in use. */
  function ClassOf(p: Policy, table: string, row: Row, field: string): FieldClass {
    var identity := set f | f in IdentityFields(p, table, row);
    if field in SetOf(p.localOnlyFields, table)
       || (field == "id" && identity != {} && identity != {"id"})
       || (table, field) in p.noSync
    then LocalOnly
    else if field in SetOf(p.volatileFields, "*") || field in SetOf(p.volatileFields, table) then Volatile
    else Business
  }

  function PartIn(p: Policy, table: string, row: Row, keys: set<string>, class_: FieldClass): Row {
    map f | f in row && f in keys && ClassOf(p, table, row, f) == class_ :: row[f]
  }

  function Part(p: Policy, table: string, row: Row, class_: FieldClass): Row {
    PartIn(p, table, row, row.Keys, class_)
  }

  lemma PartInGrows(p: Policy, table: string, row: Row, keys: set<string>, class_: FieldClass, key: string)
    requires key in row && key !in keys
    ensures PartIn(p, table, row, keys + {key}, class_) ==
            if ClassOf(p, table, row, key) == class_ then PartIn(p, table, row, keys, class_)[key := row[key]]
            else PartIn(p, table, row, keys, class_)
  {
  }

  // ----- what identities and classes mean for the fields of a row

  /** The row has a value in every identity field that is configured for its table. */
  ghost predicate NaturalKey(p: Policy, table: string, row: Row) {
    && table in p.identityFields && p.identityFields[table] != []
    && forall f | f in p.identityFields[table] :: f in row && row[f] != Null && row[f] != Text("")
  }

  /** Two rows of one object: equal natural keys, or else equal database ids. */
  ghost predicate SameObject(p: Policy, table: string, a: Row, b: Row) {
    if NaturalKey(p, table, a) && NaturalKey(p, table, b) then forall f | f in p.identityFields[table] :: a[f] == b[f]
    else !NaturalKey(p, table, a) && !NaturalKey(p, table, b) && Get(a, "id") == Get(b, "id")
  }

  /** The identity of a row is that of its object. */
  lemma IdentityExactlyWhen(p: Policy, table: string, a: Row, b: Row)
    ensures IdentityOf(p, table, a) == IdentityOf(p, table, b) <==> SameObject(p, table, a, b)
  {
    var x, y := IdentityOf(p, table, a), IdentityOf(p, table, b);
    NaturalFields(p, table, a);
    NaturalFields(p, table, b);
    if x == y {
      forall f | f in x.fields ensures Get(a, f) == Get(b, f) {
        assert x.values[f] == y.values[f];
      }
      assert "id" in FALLBACK_IDENTITY_FIELDS;
    }
    if SameObject(p, table, a, b) {
      assert x.values == y.values;
    }
  }

  lemma NaturalFields(p: Policy, table: string, row: Row)
    ensures IdentityFields(p, table, row) == if NaturalKey(p, table, row) then p.identityFields[table] else ["id"]
  {
  }

  /** The object has a key besides the database id. */
  ghost predicate ByOtherKey(p: Policy, table: string, row: Row) {
    NaturalKey(p, table, row) && exists f :: f in p.identityFields[table] && f != "id"
  }

  /** The fields that are local to a server. */
  ghost predicate LocalField(p: Policy, table: string, row: Row, f: string) {
    || (table in p.localOnlyFields && f in p.localOnlyFields[table])
    || (table, f) in p.noSync
    || (f == "id" && ByOtherKey(p, table, row))
  }

  ghost predicate VolatileField(p: Policy, table: string, f: string) {
    ("*" in p.volatileFields && f in p.volatileFields["*"]) || (table in p.volatileFields && f in p.volatileFields[table])
  }

  ghost predicate InClass(p: Policy, table: string, row: Row, f: string, class_: FieldClass) {
    match class_
    case LocalOnly => LocalField(p, table, row, f)
    case Volatile => VolatileField(p, table, f) && !LocalField(p, table, row, f)
    case Business => !VolatileField(p, table, f) && !LocalField(p, table, row, f)
  }

  lemma ClassExactlyWhen(p: Policy, table: string, row: Row, f: string, class_: FieldClass)
    ensures ClassOf(p, table, row, f) == class_ <==> InClass(p, table, row, f, class_)
  {
    OtherKeyExactlyWhen(p, table, row);
  }

  lemma OtherKeyExactlyWhen(p: Policy, table: string, row: Row)
    ensures var identity := set f | f in IdentityFields(p, table, row);
            ByOtherKey(p, table, row) <==> identity != {} && identity != {"id"}
  {
    NaturalFields(p, table, row);
    var fields := IdentityFields(p, table, row);
    var identity := set f | f in fields;
    assert fields[0] in identity;
    assert forall f | f in fields :: f in identity;
    assert (forall f | f in fields :: f == "id") ==> identity == {"id"};
  }

  /** The rows have the same fields of a class, with the same values. */
  ghost predicate SameFields(p: Policy, table: string, a: Row, b: Row, class_: FieldClass) {
    forall f | InClass(p, table, a, f, class_) :: (f in a <==> f in b) && (f in a ==> a[f] == b[f])
  }

  /** On two rows of one object equal parts are equal fields. */
  lemma PartsEqualExactlyWhen(p: Policy, table: string, a: Row, b: Row, class_: FieldClass)
    requires SameObject(p, table, a, b)
    ensures Part(p, table, a, class_) == Part(p, table, b, class_) <==> SameFields(p, table, a, b, class_)
  {
    var x, y := Part(p, table, a, class_), Part(p, table, b, class_);
    forall f ensures InClass(p, table, a, f, class_) <==> InClass(p, table, b, f, class_) {
    }
    forall f
      ensures f in x <==> f in a && InClass(p, table, a, f, class_)
      ensures f in y <==> f in b && InClass(p, table, a, f, class_)
    {
      ClassExactlyWhen(p, table, a, f, class_);
      ClassExactlyWhen(p, table, b, f, class_);
    }
    if x == y {
      forall f | InClass(p, table, a, f, class_) ensures (f in a <==> f in b) && (f in a ==> a[f] == b[f]) {
        assert f in x <==> f in y;
        if f in a { assert x[f] == y[f]; }
      }
    }
  }

  /** `_classify_fields`. */
  method ClassifyFields(p: Policy, table: string, row: Row) returns (business: Row, localOnly: Row, volatile: Row)
    ensures business == Part(p, table, row, Business)
    ensures localOnly == Part(p, table, row, LocalOnly)
    ensures volatile == Part(p, table, row, Volatile)
    ensures forall f :: f in business <==> f in row && InClass(p, table, row, f, Business)
    ensures forall f :: f in localOnly <==> f in row && InClass(p, table, row, f, LocalOnly)
    ensures forall f :: f in volatile <==> f in row && InClass(p, table, row, f, Volatile)
  {
    business, localOnly, volatile := map[], map[], map[];
    var remaining := row.Keys;
    ghost var done := {};
    while remaining != {}
      invariant remaining !! done && remaining + done == row.Keys
      invariant business == PartIn(p, table, row, done, Business)
      invariant localOnly == PartIn(p, table, row, done, LocalOnly)
      invariant volatile == PartIn(p, table, row, done, Volatile)
    {
      var key :| key in remaining;
      PartInGrows(p, table, row, done, Business, key);
      PartInGrows(p, table, row, done, LocalOnly, key);
      PartInGrows(p, table, row, done, Volatile, key);
      match ClassOf(p, table, row, key) {
        case LocalOnly => localOnly := localOnly[key := row[key]];
        case Volatile => volatile := volatile[key := row[key]];
        case Business => business := business[key := row[key]];
      }
      remaining, done := remaining - {key}, done + {key};
    }
    assert done == row.Keys;
    forall f | f in row ensures forall c: FieldClass :: ClassOf(p, table, row, f) == c <==> InClass(p, table, row, f, c) {
      forall c: FieldClass ensures ClassOf(p, table, row, f) == c <==> InClass(p, table, row, f, c) {
        ClassExactlyWhen(p, table, row, f, c);
      }
    }
  }

  /** The three buckets partition the row: no field is lost, none is compared twice, and each is in the bucket that the
  policy gives it. */
  lemma PartsPartitionRow(p: Policy, table: string, row: Row)
    ensures Part(p, table, row, Business) + Part(p, table, row, LocalOnly) + Part(p, table, row, Volatile) == row
    ensures Part(p, table, row, Business).Keys !! Part(p, table, row, LocalOnly).Keys !! Part(p, table, row, Volatile).Keys
    ensures forall c: FieldClass, f :: f in Part(p, table, row, c) <==> f in row && InClass(p, table, row, f, c)
  {
    forall c: FieldClass, f ensures f in Part(p, table, row, c) <==> f in row && InClass(p, table, row, f, c) {
      ClassExactlyWhen(p, table, row, f, c);
    }
  }

  function RecordOf(h: Hasher, p: Policy, table: string, row: Row): Record {
    Record(
      h.identity(IdentityOf(p, table, row)),
      h.fields(Part(p, table, row, Business)),
      h.fields(Part(p, table, row, LocalOnly)),
      h.fields(Part(p, table, row, Volatile)))
  }

  /** Without hash collisions the hashes of two records tell exactly whether their rows are of one object, and then
  whether they agree on the fields of each class. */
  lemma RecordMeans(h: Hasher, p: Policy, table: string, a: Row, b: Row)
    requires Injective(h)
    ensures var x, y := RecordOf(h, p, table, a), RecordOf(h, p, table, b);
            && (x.identityHash == y.identityHash <==> SameObject(p, table, a, b))
            && (SameObject(p, table, a, b) ==>
                  && (x.businessHash == y.businessHash <==> SameFields(p, table, a, b, Business))
                  && (x.localOnlyHash == y.localOnlyHash <==> SameFields(p, table, a, b, LocalOnly))
                  && (x.volatileHash == y.volatileHash <==> SameFields(p, table, a, b, Volatile)))
  {
    IdentityExactlyWhen(p, table, a, b);
    if SameObject(p, table, a, b) {
      PartsEqualExactlyWhen(p, table, a, b, Business);
      PartsEqualExactlyWhen(p, table, a, b, LocalOnly);
      PartsEqualExactlyWhen(p, table, a, b, Volatile);
    }
  }

  function RecordsOf(h: Hasher, p: Policy, table: string, rows: seq<Row>): seq<Record> {
    seq(|rows|, i requires 0 <= i < |rows| => RecordOf(h, p, table, rows[i]))
  }

  // ----- sorting

  predicate Sorted(rs: seq<Record>) {
    forall i, j | 0 <= i < j < |rs| :: rs[i].identityHash <= rs[j].identityHash
  }

  /** Places a record behind those that do not exceed it, as a stable sort does. */
  function Insert(rs: seq<Record>, r: Record): seq<Record> {
    if rs == [] || rs[|rs| - 1].identityHash <= r.identityHash then rs + [r]
    else Insert(rs[..|rs| - 1], r) + [rs[|rs| - 1]]
  }

  /** `records.sort(key=identity_hash)`. */
  function SortRecords(rs: seq<Record>): seq<Record> {
    if rs == [] then [] else Insert(SortRecords(rs[..|rs| - 1]), rs[|rs| - 1])
  }

  lemma {:induction false} InsertPermutes(rs: seq<Record>, r: Record)
    ensures multiset(Insert(rs, r)) == multiset(rs) + multiset{r}
  {
    if rs != [] {
      var front, last := rs[..|rs| - 1], rs[|rs| - 1];
      assert rs == front + [last];
      InsertPermutes(front, r);
    }
  }

  lemma {:induction false} InsertSorts(rs: seq<Record>, r: Record)
    requires Sorted(rs)
    ensures Sorted(Insert(rs, r))
  {
    if rs != [] && rs[|rs| - 1].identityHash > r.identityHash {
      var front, last := rs[..|rs| - 1], rs[|rs| - 1];
      InsertSorts(front, r);
      InsertPermutes(front, r);
      var s := Insert(front, r);
      forall i | 0 <= i < |s| ensures s[i].identityHash <= last.identityHash {
        assert s[i] in multiset(s);
        if s[i] != r {
          assert s[i] in front;
        }
      }
    }
  }

  /** Sorting orders by identity hash and only rearranges. */
  lemma {:induction false} SortRecordsSorts(rs: seq<Record>)
    ensures Sorted(SortRecords(rs)) && multiset(SortRecords(rs)) == multiset(rs)
  {
    if rs != [] {
      var front, last := rs[..|rs| - 1], rs[|rs| - 1];
      assert rs == front + [last];
      SortRecordsSorts(front);
      InsertSorts(SortRecords(front), last);
      InsertPermutes(SortRecords(front), last);
    }
  }

  ghost predicate DistinctIdentities(rs: seq<Record>) {
    forall i, j | 0 <= i < j < |rs| :: rs[i].identityHash != rs[j].identityHash
  }

  function Identities(rs: seq<Record>): set<Digest> {
    set r | r in rs :: r.identityHash
  }

  lemma CancelOne<T>(a: multiset<T>, b: multiset<T>, x: T)
    requires a + multiset{x} == b + multiset{x}
    ensures a == b
  {
    assert (a + multiset{x}) - multiset{x} == a;
    assert (b + multiset{x}) - multiset{x} == b;
  }

  lemma SplitLast<T>(s: seq<T>)
    requires s != []
    ensures s == s[..|s| - 1] + [s[|s| - 1]] && multiset(s) == multiset(s[..|s| - 1]) + multiset{s[|s| - 1]}
  {
  }

  lemma SameLast(a: seq<Record>, b: seq<Record>)
    requires Sorted(a) && Sorted(b) && multiset(a) == multiset(b) && DistinctIdentities(a) && a != [] && b != []
    ensures a[|a| - 1] == b[|b| - 1]
  {
    var x, y := a[|a| - 1], b[|b| - 1];
    assert x in multiset(b) && y in multiset(a);
    var i :| 0 <= i < |b| && b[i] == x;
    var j :| 0 <= j < |a| && a[j] == y;
    assert x.identityHash <= y.identityHash;
    assert j == |a| - 1;
  }

  /** With distinct keys there is one sorted arrangement. */
  lemma {:induction false} SortedUnique(a: seq<Record>, b: seq<Record>)
    requires Sorted(a) && Sorted(b) && multiset(a) == multiset(b) && DistinctIdentities(a)
    ensures a == b
  {
    SameSize(a, b);
    if a != [] {
      SameLast(a, b);
      var n := |a| - 1;
      SplitLast(a);
      SplitLast(b);
      CancelOne(multiset(a[..n]), multiset(b[..n]), a[n]);
      SortedUnique(a[..n], b[..n]);
    }
  }

  // ----- counting duplicates

  ghost function Total<K>(counts: map<K, nat>): nat
    decreases |counts|
  {
    if counts == map[] then 0
    else
      var k :| k in counts;
      assert |counts - {k}| < |counts| by { SmallerMap(counts, k); }
      counts[k] + Total(counts - {k})
  }

  lemma SmallerMap<K>(counts: map<K, nat>, k: K)
    requires k in counts
    ensures |counts - {k}| == |counts| - 1
  {
  }

  lemma {:induction false} TotalRemove<K>(counts: map<K, nat>, k: K)
    requires k in counts
    ensures Total(counts) == counts[k] + Total(counts - {k})
    decreases |counts|
  {
    var j :| j in counts && Total(counts) == counts[j] + Total(counts - {j});
    if j != k {
      SmallerMap(counts, j);
      SmallerMap(counts, k);
      TotalRemove(counts - {j}, k);
      TotalRemove(counts - {k}, j);
      assert counts - {j} - {k} == counts - {k} - {j};
    }
  }

  lemma TotalIncrement(counts: map<Digest, nat>, key: Digest, n: nat)
    requires n == if key in counts then counts[key] + 1 else 1
    ensures Total(counts[key := n]) == Total(counts) + 1
  {
    assert (counts[key := n]) - {key} == counts - {key};
    TotalRemove(counts[key := n], key);
    if key in counts {
      TotalRemove(counts, key);
    } else {
      assert counts - {key} == counts;
    }
  }

  /** How often each identity occurs. */
  method CountIdentities(records: seq<Record>) returns (counts: map<Digest, nat>)
    ensures counts.Keys == Identities(records) && Total(counts) == |records|
    ensures forall k | k in counts :: counts[k] >= 1
  {
    counts := map[];
    for i := 0 to |records|
      invariant counts.Keys == Identities(records[..i])
      invariant forall k | k in counts :: counts[k] >= 1
      invariant Total(counts) == i
    {
      var key := records[i].identityHash;
      assert records[..i + 1] == records[..i] + [records[i]];
      var n := if key in counts then counts[key] + 1 else 1;
      TotalIncrement(counts, key, n);
      counts := counts[key := n];
    }
    assert records[..|records|] == records;
  }

  method SumExcess(counts: map<Digest, nat>) returns (sum: nat)
    requires forall k | k in counts :: counts[k] >= 1
    ensures sum == Total(counts) - |counts|
  {
    var rest := counts;
    sum := 0;
    while rest != map[]
      invariant forall k | k in rest :: rest[k] >= 1
      invariant sum + Total(rest) - |rest| == Total(counts) - |counts|
      decreases |rest|
    {
      var k :| k in rest;
      TotalRemove(rest, k);
      SmallerMap(rest, k);
      if rest[k] > 1 {
        sum := sum + rest[k] - 1;
      }
      rest := rest - {k};
    }
  }

  /** The counting loops of the snapshot builder and of `_duplicate_identity_count`: the records in
  excess of one per identity. */
  method CountDuplicates(records: seq<Record>) returns (duplicates: nat)
    ensures duplicates == |records| - |Identities(records)|
  {
    var counts := CountIdentities(records);
    assert |counts| == |counts.Keys|;
    duplicates := SumExcess(counts);
  }

  /** Without duplicates exactly when the identities are pairwise distinct. */
  lemma {:induction false} DuplicateFree(rs: seq<Record>)
    ensures |Identities(rs)| <= |rs|
    ensures |Identities(rs)| == |rs| <==> DistinctIdentities(rs)
  {
    if rs != [] {
      var front, last := rs[..|rs| - 1], rs[|rs| - 1];
      DuplicateFree(front);
      assert rs == front + [last];
      assert Identities(rs) == Identities(front) + {last.identityHash};
      if last.identityHash in Identities(front) {
        assert Identities(rs) == Identities(front);
        var r :| r in front && r.identityHash == last.identityHash;
        var i :| 0 <= i < |front| && front[i] == r;
        assert rs[i].identityHash == rs[|rs| - 1].identityHash;
      } else {
        forall i | 0 <= i < |front| ensures front[i].identityHash != last.identityHash {
          assert front[i] in front;
        }
      }
    }
  }

  // ----- table snapshots

  datatype TableSnapshot = TableSnapshot(
    rowCount: nat, truncated: bool, duplicateCount: nat, recordsHash: Digest, records: seq<Record>)

  /** `max_rows`; a negative limit admits no row, like 0. */
  function Limit(maxRows: int): nat {
    if maxRows < 0 then 0 else maxRows
  }

  predicate CutOff(rows: seq<Row>, maxRows: Option<int>) {
    maxRows.Some? && |rows| > Limit(maxRows.value)
  }

  function Kept(rows: seq<Row>, maxRows: Option<int>): seq<Row> {
    if CutOff(rows, maxRows) then rows[..Limit(maxRows.value)] else rows
  }

  function SnapshotOf(h: Hasher, p: Policy, table: string, rows: seq<Row>, maxRows: Option<int>): (t: TableSnapshot)
    ensures Identities(t.records) == Identities(RecordsOf(h, p, table, Kept(rows, maxRows)))
    ensures t.rowCount == |Kept(rows, maxRows)|
  {
    var unsorted := RecordsOf(h, p, table, Kept(rows, maxRows));
    var records := SortRecords(unsorted);
    SortRecordsSorts(unsorted);
    SameMembers(records, unsorted);
    DuplicateFree(records);
    TableSnapshot(|records|, CutOff(rows, maxRows), |records| - |Identities(records)|, h.records(records), records)
  }

  lemma SameMembers(a: seq<Record>, b: seq<Record>)
    requires multiset(a) == multiset(b)
    ensures |a| == |b| && (forall r :: r in a <==> r in b) && Identities(a) == Identities(b)
  {
    SameSize(a, b);
    assert forall r :: r in a <==> r in multiset(a);
    assert forall r :: r in b <==> r in multiset(b);
  }

  /** The reading loop of `build_table_parity_snapshot`. */
  method ReadRecords(h: Hasher, p: Policy, table: string, rows: seq<Row>, maxRows: Option<int>)
    returns (records: seq<Record>, truncated: bool)
    ensures records == RecordsOf(h, p, table, Kept(rows, maxRows)) && truncated == CutOff(rows, maxRows)
  {
    records, truncated := [], false;
    var index := 0;
    while index < |rows| && !truncated
      invariant index <= |rows| && (maxRows.Some? ==> index <= Limit(maxRows.value))
      invariant truncated ==> maxRows.Some? && index == Limit(maxRows.value) < |rows|
      invariant records == RecordsOf(h, p, table, rows[..index])
      decreases |rows| - index, !truncated
    {
      if maxRows.Some? && index >= maxRows.value {
        truncated := true;
      } else {
        var row := rows[index];
        var business, localOnly, volatile := ClassifyFields(p, table, row);
        var record := Record(
          h.identity(IdentityOf(p, table, row)), h.fields(business), h.fields(localOnly), h.fields(volatile));
        RecordsOfSnoc(h, p, table, rows[..index], row);
        assert rows[..index + 1] == rows[..index] + [row];
        records := records + [record];
        index := index + 1;
      }
    }
    assert rows[..|rows|] == rows;
  }

  lemma RecordsOfSnoc(h: Hasher, p: Policy, table: string, rows: seq<Row>, row: Row)
    ensures RecordsOf(h, p, table, rows + [row]) == RecordsOf(h, p, table, rows) + [RecordOf(h, p, table, row)]
  {
  }

  /** `build_table_parity_snapshot`. */
  method BuildTableSnapshot(h: Hasher, p: Policy, table: string, rows: seq<Row>, maxRows: Option<int>)
    returns (snapshot: TableSnapshot)
    ensures snapshot == SnapshotOf(h, p, table, rows, maxRows)
  {
    var records, truncated := ReadRecords(h, p, table, rows, maxRows);
    records := SortRecords(records);
    var duplicates := CountDuplicates(records);
    snapshot := TableSnapshot(|records|, truncated, duplicates, h.records(records), records);
  }

  function Without<T>(s: seq<T>, i: nat): seq<T>
    requires i < |s|
  {
    s[..i] + s[i + 1..]
  }

  lemma TakeOut<T>(s: seq<T>, i: nat)
    requires i < |s|
    ensures multiset(s) == multiset(Without(s, i)) + multiset{s[i]}
  {
    assert s == s[..i] + [s[i]] + s[i + 1..];
  }

  lemma SameSize<T>(a: seq<T>, b: seq<T>)
    requires multiset(a) == multiset(b)
    ensures |a| == |b|
  {
    assert |multiset(a)| == |a| && |multiset(b)| == |b|;
  }

  lemma RecordsOfWithout(h: Hasher, p: Policy, table: string, rows: seq<Row>, i: nat)
    requires i < |rows|
    ensures RecordsOf(h, p, table, Without(rows, i)) == Without(RecordsOf(h, p, table, rows), i)
  {
  }

  lemma {:induction false} RecordsOfMultiset(h: Hasher, p: Policy, table: string, rows: seq<Row>, rows': seq<Row>)
    requires multiset(rows) == multiset(rows')
    ensures multiset(RecordsOf(h, p, table, rows)) == multiset(RecordsOf(h, p, table, rows'))
    decreases |rows|
  {
    SameSize(rows, rows');
    if rows != [] {
      assert rows[0] in multiset(rows');
      var i :| 0 <= i < |rows'| && rows'[i] == rows[0];
      TakeOut(rows, 0);
      TakeOut(rows', i);
      CancelOne(multiset(Without(rows, 0)), multiset(Without(rows', i)), rows[0]);
      RecordsOfMultiset(h, p, table, Without(rows, 0), Without(rows', i));
      var rs, rs' := RecordsOf(h, p, table, rows), RecordsOf(h, p, table, rows');
      TakeOut(rs, 0);
      TakeOut(rs', i);
      RecordsOfWithout(h, p, table, rows, 0);
      RecordsOfWithout(h, p, table, rows', i);
    }
  }

  /** Without collisions of the list hash, two snapshots have one `records_hash` exactly when they have the same records. */
  lemma RecordsHashMeans(h: Hasher, p: Policy, table: string, rows: seq<Row>, rows': seq<Row>, maxRows: Option<int>)
    requires forall a: seq<Record>, b: seq<Record> :: h.records(a) == h.records(b) ==> a == b
    ensures var t, t' := SnapshotOf(h, p, table, rows, maxRows), SnapshotOf(h, p, table, rows', maxRows);
            t.recordsHash == t'.recordsHash <==> t.records == t'.records
  {
  }

  /** Snapshots do not depend on row order: any permutation of an untruncated table whose identity hashes
  are pairwise distinct gives the same snapshot, records and hash included. */
  lemma SnapshotIgnoresRowOrder(h: Hasher, p: Policy, table: string, rows: seq<Row>, rows': seq<Row>, maxRows: Option<int>)
    requires multiset(rows) == multiset(rows') && !CutOff(rows, maxRows)
    requires DistinctIdentities(RecordsOf(h, p, table, rows))
    ensures SnapshotOf(h, p, table, rows', maxRows) == SnapshotOf(h, p, table, rows, maxRows)
  {
    SameSize(rows, rows');
    var a, b := RecordsOf(h, p, table, rows), RecordsOf(h, p, table, rows');
    RecordsOfMultiset(h, p, table, rows, rows');
    SortRecordsSorts(a);
    SortRecordsSorts(b);
    SameMembers(SortRecords(a), a);
    DuplicateFree(a);
    DuplicateFree(SortRecords(a));
    SortedUnique(SortRecords(a), SortRecords(b));
  }
}
