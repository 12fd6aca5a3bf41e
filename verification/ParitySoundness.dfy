/** What the strict release gate guarantees, from the rows of two servers to its verdict. */
module ParitySoundness {
  import opened Wrappers
  import opened Parity
  import opened ParityGate

  /** A table snapshot with the counters that the builder gives it. */
  ghost predicate WellBuilt(t: TableSnapshot) {
    t.rowCount == |t.records| && t.duplicateCount == |t.records| - |Identities(t.records)|
  }

  /** Both sides complete, without duplicate identities, with the same identities and, identity by
  identity, the same business hash. */
  ghost predicate TablesAgree(l: TableSnapshot, p: TableSnapshot) {
    && !l.truncated && !p.truncated
    && DistinctIdentities(l.records) && DistinctIdentities(p.records)
    && Identities(l.records) == Identities(p.records)
    && BusinessAgrees(l.records, p.records)
  }

  ghost predicate BusinessAgrees(ls: seq<Record>, ps: seq<Record>) {
    forall a, b | a in ls && b in ps && a.identityHash == b.identityHash :: a.businessHash == b.businessHash
  }

  predicate Tolerated(s: Severity) {
    s == Clean || s == LocalOnlyDifference || s == VolatileDifference
  }

  /** Without duplicates an identity has one record. */
  lemma TheRecord(records: seq<Record>, r: Record)
    requires DistinctIdentities(records) && r in records
    ensures r.identityHash in ById(records) && ById(records)[r.identityHash] == r
  {
  }

  lemma BusinessAgreesNoMismatch(ls: seq<Record>, ps: seq<Record>)
    requires BusinessAgrees(ls, ps)
    ensures Mismatches(ById(ls), ById(ps), BusinessDrift) == {}
  {
    ByIdEntries(ls);
    ByIdEntries(ps);
  }

  lemma SameIdentitiesSameCount(l: TableSnapshot, p: TableSnapshot)
    requires WellBuilt(l) && WellBuilt(p) && l.duplicateCount == p.duplicateCount == 0
    requires Identities(l.records) == Identities(p.records)
    ensures RowCountOf(l) == RowCountOf(p)
  {
  }

  lemma AgreeIsTolerated(l: TableSnapshot, p: TableSnapshot)
    requires WellBuilt(l) && WellBuilt(p) && TablesAgree(l, p)
    ensures Tolerated(ReportOf(l, p).severity)
  {
    DuplicateFree(l.records);
    DuplicateFree(p.records);
    SameIdentitiesSameCount(l, p);
    BusinessAgreesNoMismatch(l.records, p.records);
    assert ById(l.records).Keys == ById(p.records).Keys by {
      ByIdEntries(l.records);
      ByIdEntries(p.records);
    }
  }

  lemma ToleratedFacts(l: TableSnapshot, p: TableSnapshot)
    requires Tolerated(ReportOf(l, p).severity)
    ensures !l.truncated && !p.truncated && l.duplicateCount == 0 && p.duplicateCount == 0
    ensures ById(l.records).Keys == ById(p.records).Keys
    ensures Mismatches(ById(l.records), ById(p.records), BusinessDrift) == {}
  {
  }

  lemma NoMismatchBusinessAgrees(ls: seq<Record>, ps: seq<Record>)
    requires DistinctIdentities(ls) && DistinctIdentities(ps)
    requires Mismatches(ById(ls), ById(ps), BusinessDrift) == {}
    ensures BusinessAgrees(ls, ps)
  {
    forall a, b | a in ls && b in ps && a.identityHash == b.identityHash ensures a.businessHash == b.businessHash {
      TheRecord(ls, a);
      TheRecord(ps, b);
      assert a.identityHash !in Mismatches(ById(ls), ById(ps), BusinessDrift);
    }
  }

  lemma ToleratedAgree(l: TableSnapshot, p: TableSnapshot)
    requires WellBuilt(l) && WellBuilt(p) && Tolerated(ReportOf(l, p).severity)
    ensures TablesAgree(l, p)
  {
    ToleratedFacts(l, p);
    DuplicateFree(l.records);
    DuplicateFree(p.records);
    NoMismatchBusinessAgrees(l.records, p.records);
    ByIdEntries(l.records);
    ByIdEntries(p.records);
  }

  // ----- the gate over all tables

  ghost predicate AllWellBuilt(s: Snapshot) {
    forall n | n in s :: WellBuilt(s[n])
  }

  ghost predicate AllAgree(l: Snapshot, p: Snapshot) {
    forall n | n in l.Keys + p.Keys :: TablesAgree(TableOf(l, n), TableOf(p, n))
  }

  lemma {:induction false} TotalOfZeros<K>(m: map<K, nat>)
    requires forall k | k in m :: m[k] == 0
    ensures Total(m) == 0
    decreases |m|
  {
    if m != map[] {
      var k :| k in m;
      SmallerMap(m, k);
      TotalRemove(m, k);
      TotalOfZeros(m - {k});
    }
  }

  lemma TableSeverity(l: Snapshot, p: Snapshot, n: string)
    requires AllWellBuilt(l) && AllWellBuilt(p) && n in l.Keys + p.Keys
    ensures Tolerated(ReportsOf(l, p)[n].severity) <==> TablesAgree(TableOf(l, n), TableOf(p, n))
  {
    var lt, pt := TableOf(l, n), TableOf(p, n);
    assert WellBuilt(lt) && WellBuilt(pt) by {
      assert Identities([]) == {};
    }
    if TablesAgree(lt, pt) { AgreeIsTolerated(lt, pt); }
    if Tolerated(ReportOf(lt, pt).severity) { ToleratedAgree(lt, pt); }
  }

  /** No table counted under a severity: none has it. */
  lemma NoneCounted(reports: map<string, Report>, s: Severity, n: string)
    requires |TablesWith(reports, s)| == 0 && n in reports
    ensures reports[n].severity != s
  {
    assert n !in TablesWith(reports, s);
  }

  lemma NoneBad(reports: map<string, Report>)
    requires CountsOf(reports).incomplete == CountsOf(reports).critical == CountsOf(reports).business == 0
    ensures forall n | n in reports :: Tolerated(reports[n].severity)
  {
    forall n | n in reports ensures Tolerated(reports[n].severity) {
      NoneCounted(reports, Incomplete, n);
      NoneCounted(reports, CriticalDrift, n);
      NoneCounted(reports, BusinessDrift, n);
    }
  }

  lemma PassedCounts(c: Comparison, age: Option<real>, maxAge: int, complete: bool, require_: bool)
    requires Gate(Some(SummaryOf(c, age, maxAge, complete)), require_) == Passed
    ensures c.counts.incomplete == c.counts.critical == c.counts.business == 0
  {
  }

  /** The verdict on the snapshots of two servers. */
  ghost function VerdictOn(l: Snapshot, p: Snapshot, age: Option<real>, maxAge: int, complete: bool, require_: bool): Verdict {
    Gate(Some(SummaryOf(ComparisonOf(l, p), age, maxAge, complete)), require_)
  }

  lemma PassedTablesAgree(l: Snapshot, p: Snapshot, age: Option<real>, maxAge: int, complete: bool, require_: bool)
    requires AllWellBuilt(l) && AllWellBuilt(p)
    requires VerdictOn(l, p, age, maxAge, complete, require_) == Passed
    ensures AllAgree(l, p)
  {
    PassedCounts(ComparisonOf(l, p), age, maxAge, complete, require_);
    NoneBad(ReportsOf(l, p));
    forall n | n in l.Keys + p.Keys ensures TablesAgree(TableOf(l, n), TableOf(p, n)) {
      TableSeverity(l, p, n);
    }
  }

  ghost predicate CleanReport(r: Report) {
    && Tolerated(r.severity) && !r.localTruncated && !r.peerTruncated
    && r.localDuplicates == 0 && r.peerDuplicates == 0
  }

  lemma CleanReportsCount(reports: map<string, Report>)
    requires forall n | n in reports :: CleanReport(reports[n])
    ensures CountsOf(reports).incomplete == CountsOf(reports).critical == CountsOf(reports).business == 0
    ensures |TruncatedTables(reports)| == 0 && Total(DuplicatesPerTable(reports)) == 0
  {
    assert TablesWith(reports, Incomplete) == {};
    assert TablesWith(reports, CriticalDrift) == {};
    assert TablesWith(reports, BusinessDrift) == {};
    assert TruncatedTables(reports) == {};
    TotalOfZeros(DuplicatesPerTable(reports));
  }

  lemma AgreeingReportIsClean(l: Snapshot, p: Snapshot, n: string)
    requires AllWellBuilt(l) && AllWellBuilt(p) && n in l.Keys + p.Keys
    requires TablesAgree(TableOf(l, n), TableOf(p, n))
    ensures CleanReport(ReportsOf(l, p)[n])
  {
    TableSeverity(l, p, n);
    ToleratedFacts(TableOf(l, n), TableOf(p, n));
  }

  lemma AgreeingTablesPass(l: Snapshot, p: Snapshot, age: Option<real>, maxAge: int, complete: bool, require_: bool)
    requires AllWellBuilt(l) && AllWellBuilt(p) && AllAgree(l, p)
    requires IsFresh(age, maxAge) && (require_ ==> complete)
    ensures VerdictOn(l, p, age, maxAge, complete, require_) == Passed
  {
    var reports := ReportsOf(l, p);
    forall n | n in reports ensures CleanReport(reports[n]) {
      AgreeingReportIsClean(l, p, n);
    }
    CleanReportsCount(reports);
  }

  /** The evidence has an age, which is not negative, and is at most the maximum or 0. */
  ghost predicate InTime(age: Option<real>, maxAge: int) {
    age.Some? && (age.value <= 0.0 || age.value <= maxAge as real)
  }

  /** The gate is sound and complete: it passes exactly when the evidence is fresh, the required metadata
  is there, and every table of either side agrees. */
  lemma GatePassesExactlyWhen(l: Snapshot, p: Snapshot, age: Option<real>, maxAge: int, complete: bool, require_: bool)
    requires AllWellBuilt(l) && AllWellBuilt(p)
    ensures VerdictOn(l, p, age, maxAge, complete, require_) == Passed <==>
            InTime(age, maxAge) && (require_ ==> complete) && AllAgree(l, p)
    ensures Gate(None, require_) != Passed
  {
    if VerdictOn(l, p, age, maxAge, complete, require_) == Passed {
      PassedTablesAgree(l, p, age, maxAge, complete, require_);
    }
    if IsFresh(age, maxAge) && (require_ ==> complete) && AllAgree(l, p) {
      AgreeingTablesPass(l, p, age, maxAge, complete, require_);
    }
  }

  /** Why the gate blocks two built snapshots: stale evidence first, then missing metadata, then the status of the
  comparison; no other reason arises. */
  lemma BlockedBecause(l: Snapshot, p: Snapshot, age: Option<real>, maxAge: int, complete: bool, require_: bool)
    requires AllWellBuilt(l) && AllWellBuilt(p)
    ensures var v := VerdictOn(l, p, age, maxAge, complete, require_);
            && (v == Blocked(StaleEvidence) <==> !InTime(age, maxAge))
            && (v == Blocked(MissingMetadata) <==> InTime(age, maxAge) && require_ && !complete)
            && (InTime(age, maxAge) && (require_ ==> complete) && !AllAgree(l, p) ==> v == Blocked(BadStatus(ComparisonOf(l, p).status)))
  {
    GatePassesExactlyWhen(l, p, age, maxAge, complete, require_);
    if !AllAgree(l, p) {
      DisagreementHasStatus(l, p);
    }
  }

  lemma DisagreementHasStatus(l: Snapshot, p: Snapshot)
    requires AllWellBuilt(l) && AllWellBuilt(p) && !AllAgree(l, p)
    ensures ComparisonOf(l, p).status != StatusOk && ComparisonOf(l, p).status != StatusNonBusinessDifference
  {
    var reports := ReportsOf(l, p);
    var n :| n in l.Keys + p.Keys && !TablesAgree(TableOf(l, n), TableOf(p, n));
    TableSeverity(l, p, n);
    if CountsOf(reports).incomplete == CountsOf(reports).critical == CountsOf(reports).business == 0 { NoneBad(reports); }
  }

  // ----- severities and status

  ghost predicate Differ(l: TableSnapshot, p: TableSnapshot, kind: Severity) {
    exists a, b :: a in l.records && b in p.records && a.identityHash == b.identityHash && HashesDiffer(a, b, kind)
  }

  /** The business hashes differ; or only after them the local-only hashes; or only after both the volatile hashes. */
  ghost predicate HashesDiffer(a: Record, b: Record, kind: Severity) {
    match kind
    case BusinessDrift => a.businessHash != b.businessHash
    case LocalOnlyDifference => a.businessHash == b.businessHash && a.localOnlyHash != b.localOnlyHash
    case VolatileDifference => a.businessHash == b.businessHash && a.localOnlyHash == b.localOnlyHash && a.volatileHash != b.volatileHash
    case _ => false
  }

  lemma MismatchExactlyWhen(l: TableSnapshot, p: TableSnapshot, kind: Severity)
    requires DistinctIdentities(l.records) && DistinctIdentities(p.records) && kind != Clean
    ensures Mismatches(ById(l.records), ById(p.records), kind) != {} <==> Differ(l, p, kind)
  {
    var ls, ps := ById(l.records), ById(p.records);
    ByIdEntries(l.records);
    ByIdEntries(p.records);
    if k :| k in Mismatches(ls, ps, kind) {
      assert HashesDiffer(ls[k], ps[k], kind);
    }
    if Differ(l, p, kind) {
      var a, b :| a in l.records && b in p.records && a.identityHash == b.identityHash && HashesDiffer(a, b, kind);
      TheRecord(l.records, a);
      TheRecord(p.records, b);
      assert a.identityHash in Mismatches(ls, ps, kind);
    }
  }

  /** Complete on both sides, without duplicates and with the same identities. */
  ghost predicate Comparable(l: TableSnapshot, p: TableSnapshot) {
    && !l.truncated && !p.truncated && DistinctIdentities(l.records) && DistinctIdentities(p.records)
    && Identities(l.records) == Identities(p.records)
  }

  /** The severity of a table, exactly: incomplete when a side was cut off; else critical unless the tables can be
  compared identity by identity; else the weightiest kind of difference that occurs. */
  lemma SeverityExactlyWhen(l: TableSnapshot, p: TableSnapshot)
    requires WellBuilt(l) && WellBuilt(p)
    ensures var severity := ReportOf(l, p).severity;
            && (severity == Incomplete <==> l.truncated || p.truncated)
            && (severity == CriticalDrift <==> !l.truncated && !p.truncated && !Comparable(l, p))
            && (severity == BusinessDrift <==> Comparable(l, p) && Differ(l, p, BusinessDrift))
            && (severity == LocalOnlyDifference <==>
                  Comparable(l, p) && !Differ(l, p, BusinessDrift) && Differ(l, p, LocalOnlyDifference))
            && (severity == VolatileDifference <==>
                  && Comparable(l, p) && !Differ(l, p, BusinessDrift) && !Differ(l, p, LocalOnlyDifference)
                  && Differ(l, p, VolatileDifference))
  {
    DuplicateFree(l.records);
    DuplicateFree(p.records);
    ByIdEntries(l.records);
    ByIdEntries(p.records);
    var ls, ps := ById(l.records), ById(p.records);
    assert ls.Keys == ps.Keys <==> ps.Keys - ls.Keys == {} && ls.Keys - ps.Keys == {};
    if Comparable(l, p) {
      SameIdentitiesSameCount(l, p);
      MismatchExactlyWhen(l, p, BusinessDrift);
      MismatchExactlyWhen(l, p, LocalOnlyDifference);
      MismatchExactlyWhen(l, p, VolatileDifference);
    }
  }

  /** The fields of a report: each side's own truncation and duplicates, the identities that a side lacks, and whether the
  sides have different numbers of records. */
  lemma ReportMeans(l: TableSnapshot, p: TableSnapshot)
    requires WellBuilt(l) && WellBuilt(p)
    ensures var r := ReportOf(l, p);
            && r.localTruncated == l.truncated && r.peerTruncated == p.truncated
            && r.localDuplicates == |l.records| - |Identities(l.records)| && r.peerDuplicates == |p.records| - |Identities(p.records)|
            && (forall d :: d in r.missingOnLocal <==> d in Identities(p.records) && d !in Identities(l.records))
            && (forall d :: d in r.missingOnPeer <==> d in Identities(l.records) && d !in Identities(p.records))
            && (r.rowCountMismatch <==> |l.records| != |p.records|)
  {
    ByIdEntries(l.records);
    ByIdEntries(p.records);
    NoRecordsNoEntries(l);
    NoRecordsNoEntries(p);
  }

  lemma NoRecordsNoEntries(t: TableSnapshot)
    requires WellBuilt(t)
    ensures RowCountOf(t) == |t.records|
  {
  }

  ghost predicate Occurs(reports: map<string, Report>, severity: Severity) {
    exists n :: n in reports && reports[n].severity == severity
  }

  lemma CountedExactlyWhen(reports: map<string, Report>, severity: Severity)
    ensures |TablesWith(reports, severity)| != 0 <==> Occurs(reports, severity)
  {
    if Occurs(reports, severity) {
      var n :| n in reports && reports[n].severity == severity;
      assert n in TablesWith(reports, severity);
    }
  }

  /** The status of a comparison is the worst severity among its tables. */
  lemma StatusIsWorst(reports: map<string, Report>)
    ensures var status := StatusOf(CountsOf(reports));
            && (status == StatusIncomplete <==> Occurs(reports, Incomplete))
            && (status == StatusCriticalDrift <==> !Occurs(reports, Incomplete) && Occurs(reports, CriticalDrift))
            && (status == StatusBusinessDrift <==>
                  !Occurs(reports, Incomplete) && !Occurs(reports, CriticalDrift) && Occurs(reports, BusinessDrift))
            && (status == StatusOk <==> forall n | n in reports :: reports[n].severity == Clean)
  {
    CountedExactlyWhen(reports, Incomplete);
    CountedExactlyWhen(reports, CriticalDrift);
    CountedExactlyWhen(reports, BusinessDrift);
    CountedExactlyWhen(reports, LocalOnlyDifference);
    CountedExactlyWhen(reports, VolatileDifference);
  }

  // ----- symmetry

  /** Swapping the sides of a table keeps its severity and swaps what is missing where. */
  lemma TableSymmetry(l: TableSnapshot, p: TableSnapshot)
    ensures ReportOf(p, l).severity == ReportOf(l, p).severity
    ensures ReportOf(p, l).missingOnLocal == ReportOf(l, p).missingOnPeer
    ensures ReportOf(p, l).missingOnPeer == ReportOf(l, p).missingOnLocal
    ensures ReportOf(p, l).businessMismatches == ReportOf(l, p).businessMismatches
  {
    var ls, ps := ById(l.records), ById(p.records);
    forall s: Severity ensures Mismatches(ps, ls, s) == Mismatches(ls, ps, s) {
    }
  }

  lemma SameSeverities(a: map<string, Report>, b: map<string, Report>)
    requires a.Keys == b.Keys && forall n | n in a :: a[n].severity == b[n].severity
    ensures CountsOf(a) == CountsOf(b)
  {
    forall s: Severity ensures TablesWith(b, s) == TablesWith(a, s) {
    }
  }

  /** Swapping the sides of a comparison keeps its status and every count. */
  lemma ComparisonSymmetry(l: Snapshot, p: Snapshot)
    ensures ComparisonOf(p, l).status == ComparisonOf(l, p).status
    ensures ComparisonOf(p, l).counts == ComparisonOf(l, p).counts
  {
    var a, b := ReportsOf(l, p), ReportsOf(p, l);
    assert a.Keys == b.Keys;
    forall n | n in a ensures b[n].severity == a[n].severity {
      TableSymmetry(TableOf(l, n), TableOf(p, n));
    }
    SameSeverities(a, b);
  }

  // ----- end to end: rows

  type Tables = map<string, seq<Row>>

  function SnapshotsOf(h: Hasher, policy: Policy, tables: Tables, maxRows: Option<int>): Snapshot {
    map n | n in tables :: SnapshotOf(h, policy, n, tables[n], maxRows)
  }

  function RowsOf(tables: Tables, n: string): seq<Row> {
    if n in tables then tables[n] else []
  }

  /** The row on one side has a counterpart on the other: a row of the same object that has every field with the same
  value, except local and volatile fields. */
  ghost predicate HasCounterpart(policy: Policy, table: string, row: Row, others: seq<Row>) {
    exists other :: other in others && SameObject(policy, table, row, other) && SameFields(policy, table, row, other, Business)
  }

  ghost predicate OneRowPerObject(policy: Policy, table: string, rows: seq<Row>) {
    forall i, j | 0 <= i < j < |rows| :: !SameObject(policy, table, rows[i], rows[j])
  }

  lemma DistinctRows(h: Hasher, policy: Policy, table: string, rows: seq<Row>)
    requires DistinctIdentities(SortRecords(RecordsOf(h, policy, table, rows)))
    ensures OneRowPerObject(policy, table, rows)
  {
    var rs := RecordsOf(h, policy, table, rows);
    SortRecordsSorts(rs);
    SameMembers(SortRecords(rs), rs);
    DuplicateFree(SortRecords(rs));
    DuplicateFree(rs);
    forall i, j | 0 <= i < j < |rows| ensures !SameObject(policy, table, rows[i], rows[j]) {
      assert rs[i].identityHash != rs[j].identityHash;
      IdentityExactlyWhen(policy, table, rows[i], rows[j]);
    }
  }

  lemma Counterpart(h: Hasher, policy: Policy, table: string, row: Row, ls: seq<Row>, ps: seq<Row>)
    requires Injective(h) && row in ls
    requires Identities(RecordsOf(h, policy, table, ls)) == Identities(RecordsOf(h, policy, table, ps))
    requires BusinessAgrees(RecordsOf(h, policy, table, ls), RecordsOf(h, policy, table, ps))
    ensures HasCounterpart(policy, table, row, ps)
  {
    var lr, pr := RecordsOf(h, policy, table, ls), RecordsOf(h, policy, table, ps);
    var i :| 0 <= i < |ls| && ls[i] == row;
    var a := lr[i];
    assert a in lr && a.identityHash in Identities(pr);
    var b :| b in pr && b.identityHash == a.identityHash;
    var j :| 0 <= j < |pr| && pr[j] == b;
    assert a.businessHash == b.businessHash;
    assert ps[j] in ps;
    RecordMeans(h, policy, table, row, ps[j]);
  }

  ghost predicate RowsAgree(policy: Policy, table: string, ls: seq<Row>, ps: seq<Row>) {
    && OneRowPerObject(policy, table, ls)
    && forall row | row in ls :: HasCounterpart(policy, table, row, ps)
  }

  /** Where tables agree, rows have counterparts. */
  lemma AgreementOnRows(h: Hasher, policy: Policy, table: string, ls: seq<Row>, ps: seq<Row>)
    requires Injective(h)
    requires var l, p := SortRecords(RecordsOf(h, policy, table, ls)), SortRecords(RecordsOf(h, policy, table, ps));
             DistinctIdentities(l) && Identities(l) == Identities(p) && BusinessAgrees(l, p)
    ensures RowsAgree(policy, table, ls, ps)
  {
    var lr, pr := RecordsOf(h, policy, table, ls), RecordsOf(h, policy, table, ps);
    DistinctRows(h, policy, table, ls);
    SortRecordsSorts(lr);
    SortRecordsSorts(pr);
    SameMembers(SortRecords(lr), lr);
    SameMembers(SortRecords(pr), pr);
    assert BusinessAgrees(lr, pr);
    forall row | row in ls ensures HasCounterpart(policy, table, row, ps) {
      Counterpart(h, policy, table, row, ls, ps);
    }
  }

  /** A missing table and an empty one have the same records. */
  lemma TableOfRows(h: Hasher, policy: Policy, tables: Tables, maxRows: Option<int>, n: string)
    ensures var t := TableOf(SnapshotsOf(h, policy, tables, maxRows), n);
            && t.truncated == CutOff(RowsOf(tables, n), maxRows)
            && t.records == SortRecords(RecordsOf(h, policy, n, Kept(RowsOf(tables, n), maxRows)))
  {
  }

  lemma SnapshotsWellBuilt(h: Hasher, policy: Policy, tables: Tables, maxRows: Option<int>)
    ensures AllWellBuilt(SnapshotsOf(h, policy, tables, maxRows))
  {
  }

  // ----- and back: rows that agree have tables that agree

  lemma RowsDistinct(h: Hasher, policy: Policy, table: string, rows: seq<Row>)
    requires Injective(h) && OneRowPerObject(policy, table, rows)
    ensures DistinctIdentities(SortRecords(RecordsOf(h, policy, table, rows)))
  {
    var rs := RecordsOf(h, policy, table, rows);
    SortRecordsSorts(rs);
    SameMembers(SortRecords(rs), rs);
    forall i, j | 0 <= i < j < |rs| ensures rs[i].identityHash != rs[j].identityHash {
      RecordMeans(h, policy, table, rows[i], rows[j]);
    }
    DuplicateFree(rs);
    DuplicateFree(SortRecords(rs));
  }

  lemma CounterpartIdentities(h: Hasher, policy: Policy, table: string, ls: seq<Row>, ps: seq<Row>)
    requires RowsAgree(policy, table, ls, ps)
    ensures Identities(RecordsOf(h, policy, table, ls)) <= Identities(RecordsOf(h, policy, table, ps))
  {
    var lr, pr := RecordsOf(h, policy, table, ls), RecordsOf(h, policy, table, ps);
    forall d | d in Identities(lr) ensures d in Identities(pr) {
      var r :| r in lr && r.identityHash == d;
      var i :| 0 <= i < |lr| && lr[i] == r;
      assert ls[i] in ls;
      var j := CounterpartAt(h, policy, table, ls[i], ps);
      assert pr[j] in pr;
    }
  }

  lemma CounterpartAt(h: Hasher, policy: Policy, table: string, row: Row, ps: seq<Row>) returns (j: nat)
    requires HasCounterpart(policy, table, row, ps)
    ensures j < |ps| && RecordOf(h, policy, table, ps[j]).identityHash == RecordOf(h, policy, table, row).identityHash
  {
    var other :| other in ps && SameObject(policy, table, row, other);
    j :| 0 <= j < |ps| && ps[j] == other;
    IdentityExactlyWhen(policy, table, row, other);
  }

  lemma SameObjectSymmetric(policy: Policy, table: string, a: Row, b: Row, c: Row)
    requires SameObject(policy, table, c, a) && SameObject(policy, table, c, b)
    ensures SameObject(policy, table, a, b) && SameObject(policy, table, b, a)
  {
    IdentityExactlyWhen(policy, table, c, a);
    IdentityExactlyWhen(policy, table, c, b);
    IdentityExactlyWhen(policy, table, a, b);
    IdentityExactlyWhen(policy, table, b, a);
  }

  lemma CounterpartBusiness(h: Hasher, policy: Policy, table: string, ls: seq<Row>, ps: seq<Row>)
    requires Injective(h) && RowsAgree(policy, table, ls, ps) && OneRowPerObject(policy, table, ps)
    ensures BusinessAgrees(RecordsOf(h, policy, table, ls), RecordsOf(h, policy, table, ps))
  {
    var lr, pr := RecordsOf(h, policy, table, ls), RecordsOf(h, policy, table, ps);
    forall a, b | a in lr && b in pr && a.identityHash == b.identityHash ensures a.businessHash == b.businessHash {
      var i :| 0 <= i < |lr| && lr[i] == a;
      var j :| 0 <= j < |pr| && pr[j] == b;
      assert ls[i] in ls && HasCounterpart(policy, table, ls[i], ps);
      var other :| other in ps && SameObject(policy, table, ls[i], other) && SameFields(policy, table, ls[i], other, Business);
      var k :| 0 <= k < |ps| && ps[k] == other;
      RecordMeans(h, policy, table, ls[i], ps[j]);
      RecordMeans(h, policy, table, ls[i], ps[k]);
      SameObjectSymmetric(policy, table, ps[j], ps[k], ls[i]);
      assert j == k;
    }
  }

  lemma AgreeingRows(h: Hasher, policy: Policy, table: string, ls: seq<Row>, ps: seq<Row>)
    requires Injective(h) && RowsAgree(policy, table, ls, ps) && RowsAgree(policy, table, ps, ls)
    ensures var l, p := SortRecords(RecordsOf(h, policy, table, ls)), SortRecords(RecordsOf(h, policy, table, ps));
            DistinctIdentities(l) && DistinctIdentities(p) && Identities(l) == Identities(p) && BusinessAgrees(l, p)
  {
    var lr, pr := RecordsOf(h, policy, table, ls), RecordsOf(h, policy, table, ps);
    RowsDistinct(h, policy, table, ls);
    RowsDistinct(h, policy, table, ps);
    CounterpartIdentities(h, policy, table, ls, ps);
    CounterpartIdentities(h, policy, table, ps, ls);
    CounterpartBusiness(h, policy, table, ls, ps);
    SortRecordsSorts(lr);
    SortRecordsSorts(pr);
    SameMembers(SortRecords(lr), lr);
    SameMembers(SortRecords(pr), pr);
  }

  // ----- end to end

  /** Both servers read the table completely; it has one row per identity on each; and every row of either server has
  a row on the other with the same identity and the same business fields. */
  ghost predicate SameTable(policy: Policy, table: string, ls: seq<Row>, ps: seq<Row>, maxRows: Option<int>) {
    && !CutOff(ls, maxRows) && !CutOff(ps, maxRows)
    && RowsAgree(policy, table, ls, ps) && RowsAgree(policy, table, ps, ls)
  }

  lemma TableAgreesExactlyWhen(h: Hasher, policy: Policy, local: Tables, peer: Tables, maxRows: Option<int>, n: string)
    requires Injective(h)
    ensures TablesAgree(TableOf(SnapshotsOf(h, policy, local, maxRows), n), TableOf(SnapshotsOf(h, policy, peer, maxRows), n)) <==>
            SameTable(policy, n, RowsOf(local, n), RowsOf(peer, n), maxRows)
  {
    var ls, ps := RowsOf(local, n), RowsOf(peer, n);
    TableOfRows(h, policy, local, maxRows, n);
    TableOfRows(h, policy, peer, maxRows, n);
    if !CutOff(ls, maxRows) && !CutOff(ps, maxRows) {
      var l, p := SortRecords(RecordsOf(h, policy, n, ls)), SortRecords(RecordsOf(h, policy, n, ps));
      if DistinctIdentities(l) && DistinctIdentities(p) && Identities(l) == Identities(p) && BusinessAgrees(l, p) {
        AgreementOnRows(h, policy, n, ls, ps);
        AgreementOnRows(h, policy, n, ps, ls);
      }
      if RowsAgree(policy, n, ls, ps) && RowsAgree(policy, n, ps, ls) { AgreeingRows(h, policy, n, ls, ps); }
    }
  }

  /** Every table of either server is the same on both. */
  ghost predicate SameTables(policy: Policy, local: Tables, peer: Tables, maxRows: Option<int>) {
    forall n | n in local.Keys + peer.Keys :: SameTable(policy, n, RowsOf(local, n), RowsOf(peer, n), maxRows)
  }

  lemma AllAgreeExactlyWhen(h: Hasher, policy: Policy, local: Tables, peer: Tables, maxRows: Option<int>, l: Snapshot, p: Snapshot)
    requires Injective(h) && l == SnapshotsOf(h, policy, local, maxRows) && p == SnapshotsOf(h, policy, peer, maxRows)
    ensures AllAgree(l, p) <==> SameTables(policy, local, peer, maxRows)
  {
    assert l.Keys + p.Keys == local.Keys + peer.Keys;
    forall n | n in local.Keys + peer.Keys
      ensures TablesAgree(TableOf(l, n), TableOf(p, n)) <==> SameTable(policy, n, RowsOf(local, n), RowsOf(peer, n), maxRows)
    {
      TableAgreesExactlyWhen(h, policy, local, peer, maxRows, n);
    }
  }

  /** End to end, from the rows of two servers to the verdict: the strict gate passes exactly when the evidence is
  fresh, the required metadata is there, and every table of either server is the same on both. */
  lemma GatePassesExactlyWhenRowsAgree(
    h: Hasher, policy: Policy, local: Tables, peer: Tables, maxRows: Option<int>, l: Snapshot, p: Snapshot,
    age: Option<real>, maxAge: int, complete: bool, require_: bool)
    requires Injective(h) && l == SnapshotsOf(h, policy, local, maxRows) && p == SnapshotsOf(h, policy, peer, maxRows)
    ensures VerdictOn(l, p, age, maxAge, complete, require_) == Passed <==>
            InTime(age, maxAge) && (require_ ==> complete) && SameTables(policy, local, peer, maxRows)
  {
    SnapshotsWellBuilt(h, policy, local, maxRows);
    SnapshotsWellBuilt(h, policy, peer, maxRows);
    GatePassesExactlyWhen(l, p, age, maxAge, complete, require_);
    AllAgreeExactlyWhen(h, policy, local, peer, maxRows, l, p);
  }

  /** In particular a passed gate means that the rows of every table agree. */
  lemma PassedGateMeansRowsAgree(
    h: Hasher, policy: Policy, local: Tables, peer: Tables, maxRows: Option<int>, l: Snapshot, p: Snapshot,
    age: Option<real>, maxAge: int, complete: bool, require_: bool, n: string)
    requires Injective(h) && l == SnapshotsOf(h, policy, local, maxRows) && p == SnapshotsOf(h, policy, peer, maxRows)
    requires VerdictOn(l, p, age, maxAge, complete, require_) == Passed && n in local.Keys + peer.Keys
    ensures !CutOff(RowsOf(local, n), maxRows) && !CutOff(RowsOf(peer, n), maxRows)
    ensures RowsAgree(policy, n, RowsOf(local, n), RowsOf(peer, n))
    ensures RowsAgree(policy, n, RowsOf(peer, n), RowsOf(local, n))
  {
    GatePassesExactlyWhenRowsAgree(h, policy, local, peer, maxRows, l, p, age, maxAge, complete, require_);
    assert SameTable(policy, n, RowsOf(local, n), RowsOf(peer, n), maxRows);
  }
}
