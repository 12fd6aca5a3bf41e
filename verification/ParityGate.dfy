/** Comparison of parity snapshots (core/sync_parity.py), the operator summary and the strict release
gate (core/sync_parity_observability.py). */
module ParityGate {
  import opened Wrappers
  import opened Parity

  // ----- one table

  datatype Severity =
    | Clean
    | Incomplete
    | CriticalDrift
    | BusinessDrift
    | LocalOnlyDifference
    | VolatileDifference

  /** The lists of identity hashes of a report are kept as sets; the source sorts and samples them. */
  datatype Report = Report(
    severity: Severity,
    localTruncated: bool, peerTruncated: bool,
    localDuplicates: nat, peerDuplicates: nat,
    rowCountMismatch: bool,
    missingOnLocal: set<Digest>, missingOnPeer: set<Digest>,
    businessMismatches: set<Digest>, localOnlyMismatches: set<Digest>, volatileMismatches: set<Digest>)

  /** `_records_by_identity`; a later record replaces an earlier one. */
  function ById(records: seq<Record>): map<Digest, Record> {
    if records == [] then map[]
    else ById(records[..|records| - 1])[records[|records| - 1].identityHash := records[|records| - 1]]
  }

  lemma {:induction false} ByIdEntries(records: seq<Record>)
    ensures ById(records).Keys == Identities(records)
    ensures forall k | k in ById(records) :: ById(records)[k] in records && ById(records)[k].identityHash == k
  {
    if records != [] {
      var front, last := records[..|records| - 1], records[|records| - 1];
      ByIdEntries(front);
      assert records == front + [last];
    }
  }

  function RowCountOf(t: TableSnapshot): nat {
    if t.rowCount != 0 then t.rowCount else |ById(t.records)|
  }

  /** How two records with one identity differ: business fields weigh most, volatile ones least. */
  function Difference(l: Record, p: Record): Severity {
    if l.businessHash != p.businessHash then BusinessDrift
    else if l.localOnlyHash != p.localOnlyHash then LocalOnlyDifference
    else if l.volatileHash != p.volatileHash then VolatileDifference
    else Clean
  }

  function Mismatches(l: map<Digest, Record>, p: map<Digest, Record>, s: Severity): set<Digest> {
    set k | k in l && k in p && Difference(l[k], p[k]) == s
  }

  function SeverityOf(r: Report): Severity {
    if r.localTruncated || r.peerTruncated then Incomplete
    else if r.localDuplicates != 0 || r.peerDuplicates != 0 then CriticalDrift
    else if r.missingOnLocal != {} || r.missingOnPeer != {} || r.rowCountMismatch then CriticalDrift
    else if r.businessMismatches != {} then BusinessDrift
    else if r.localOnlyMismatches != {} then LocalOnlyDifference
    else if r.volatileMismatches != {} then VolatileDifference
    else Clean
  }

  function ReportOf(l: TableSnapshot, p: TableSnapshot): Report {
    var ls, ps := ById(l.records), ById(p.records);
    var r := Report(
      Clean, l.truncated, p.truncated, l.duplicateCount, p.duplicateCount,
      RowCountOf(l) != RowCountOf(p), ps.Keys - ls.Keys, ls.Keys - ps.Keys,
      Mismatches(ls, ps, BusinessDrift), Mismatches(ls, ps, LocalOnlyDifference), Mismatches(ls, ps, VolatileDifference));
    r.(severity := SeverityOf(r))
  }

  /** The identity loop of `compare_parity_snapshots`. */
  method FindMismatches(ls: map<Digest, Record>, ps: map<Digest, Record>)
    returns (business: set<Digest>, localOnly: set<Digest>, volatile: set<Digest>)
    ensures business == Mismatches(ls, ps, BusinessDrift)
    ensures localOnly == Mismatches(ls, ps, LocalOnlyDifference)
    ensures volatile == Mismatches(ls, ps, VolatileDifference)
  {
    business, localOnly, volatile := {}, {}, {};
    var common := ls.Keys * ps.Keys;
    while common != {}
      invariant common <= ls.Keys * ps.Keys
      invariant business == Mismatches(ls, ps, BusinessDrift) - common
      invariant localOnly == Mismatches(ls, ps, LocalOnlyDifference) - common
      invariant volatile == Mismatches(ls, ps, VolatileDifference) - common
    {
      var k :| k in common;
      if ls[k].businessHash != ps[k].businessHash {
        business := business + {k};
      } else if ls[k].localOnlyHash != ps[k].localOnlyHash {
        localOnly := localOnly + {k};
      } else if ls[k].volatileHash != ps[k].volatileHash {
        volatile := volatile + {k};
      }
      common := common - {k};
    }
  }

  /** The body of the table loop of `compare_parity_snapshots`. */
  method CompareTables(l: TableSnapshot, p: TableSnapshot) returns (report: Report)
    ensures report == ReportOf(l, p)
  {
    var ls, ps := ById(l.records), ById(p.records);
    var business, localOnly, volatile := FindMismatches(ls, ps);
    report := Report(
      Clean, l.truncated, p.truncated, l.duplicateCount, p.duplicateCount,
      RowCountOf(l) != RowCountOf(p), ps.Keys - ls.Keys, ls.Keys - ps.Keys, business, localOnly, volatile);
    report := report.(severity := SeverityOf(report));
  }

  // ----- all tables

  type Snapshot = map<string, TableSnapshot>

  /** A table that a snapshot lacks is read as an empty one. */
  function TableOf(s: Snapshot, table: string): TableSnapshot {
    if table in s then s[table] else TableSnapshot(0, false, 0, 0, [])
  }

  function ReportsOf(l: Snapshot, p: Snapshot): map<string, Report> {
    map n | n in l.Keys + p.Keys :: ReportOf(TableOf(l, n), TableOf(p, n))
  }

  ghost predicate IsReportFor(l: Snapshot, p: Snapshot, n: string, r: Report) {
    r == ReportOf(TableOf(l, n), TableOf(p, n))
  }

  function TablesWith(reports: map<string, Report>, s: Severity): set<string> {
    set n | n in reports && reports[n].severity == s
  }

  datatype Status = StatusOk | StatusNonBusinessDifference | StatusBusinessDrift | StatusCriticalDrift | StatusIncomplete

  /** `severity_counts`. */
  datatype Counts = Counts(incomplete: nat, critical: nat, business: nat, localOnly: nat, volatile: nat)

  datatype Comparison = Comparison(status: Status, counts: Counts, reports: map<string, Report>)

  function StatusOf(c: Counts): Status {
    if c.incomplete != 0 then StatusIncomplete
    else if c.critical != 0 then StatusCriticalDrift
    else if c.business != 0 then StatusBusinessDrift
    else if c.localOnly != 0 || c.volatile != 0 then StatusNonBusinessDifference
    else StatusOk
  }

  function Bump(c: Counts, s: Severity): Counts {
    match s
    case Clean => c
    case Incomplete => c.(incomplete := c.incomplete + 1)
    case CriticalDrift => c.(critical := c.critical + 1)
    case BusinessDrift => c.(business := c.business + 1)
    case LocalOnlyDifference => c.(localOnly := c.localOnly + 1)
    case VolatileDifference => c.(volatile := c.volatile + 1)
  }

  function CountsOf(reports: map<string, Report>): Counts {
    Counts(|TablesWith(reports, Incomplete)|, |TablesWith(reports, CriticalDrift)|, |TablesWith(reports, BusinessDrift)|,
           |TablesWith(reports, LocalOnlyDifference)|, |TablesWith(reports, VolatileDifference)|)
  }

  function ComparisonOf(l: Snapshot, p: Snapshot): Comparison {
    var reports := ReportsOf(l, p);
    Comparison(StatusOf(CountsOf(reports)), CountsOf(reports), reports)
  }

  lemma TablesWithGrows(reports: map<string, Report>, n: string, r: Report, s: Severity)
    requires n !in reports
    ensures |TablesWith(reports[n := r], s)| == |TablesWith(reports, s)| + if r.severity == s then 1 else 0
  {
    assert TablesWith(reports[n := r], s) == TablesWith(reports, s) + if r.severity == s then {n} else {};
  }

  lemma CountsGrow(reports: map<string, Report>, n: string, r: Report)
    requires n !in reports
    ensures CountsOf(reports[n := r]) == Bump(CountsOf(reports), r.severity)
  {
    TablesWithGrows(reports, n, r, Incomplete);
    TablesWithGrows(reports, n, r, CriticalDrift);
    TablesWithGrows(reports, n, r, BusinessDrift);
    TablesWithGrows(reports, n, r, LocalOnlyDifference);
    TablesWithGrows(reports, n, r, VolatileDifference);
  }

  lemma NoReports()
    ensures CountsOf(map[]) == Counts(0, 0, 0, 0, 0)
  {
  }

  predicate Once(names: seq<string>) {
    forall i, j | 0 <= i < j < |names| :: names[i] != names[j]
  }

  /** The table names, each once; the result of a comparison does not depend on their order. */
  method Enumerate(all: set<string>) returns (names: seq<string>)
    ensures Once(names) && forall n :: n in names <==> n in all
  {
    names := [];
    var rest := all;
    while rest != {}
      invariant rest <= all && Once(names)
      invariant forall n :: n in names <==> n in all && n !in rest
    {
      var n :| n in rest;
      names, rest := names + [n], rest - {n};
    }
  }

  /** The table loop of `compare_parity_snapshots`. */
  method CompareAllTables(l: Snapshot, p: Snapshot, names: seq<string>) returns (reports: map<string, Report>, counts: Counts)
    requires Once(names)
    ensures counts == CountsOf(reports) && forall n :: n in reports <==> n in names
    ensures forall n | n in reports :: IsReportFor(l, p, n, reports[n])
  {
    reports, counts := map[], Counts(0, 0, 0, 0, 0);
    NoReports();
    for i := 0 to |names|
      invariant forall n :: n in reports <==> n in names[..i]
      invariant forall n | n in reports :: IsReportFor(l, p, n, reports[n])
      invariant counts == CountsOf(reports)
    {
      var n := names[i];
      var report := CompareTables(TableOf(l, n), TableOf(p, n));
      CountsGrow(reports, n, report);
      reports, counts := reports[n := report], Bump(counts, report.severity);
    }
  }

  /** `compare_parity_snapshots`. */
  method CompareSnapshots(l: Snapshot, p: Snapshot) returns (c: Comparison)
    ensures c == ComparisonOf(l, p)
  {
    var names := Enumerate(l.Keys + p.Keys);
    var reports, counts := CompareAllTables(l, p, names);
    AllReports(l, p, reports);
    c := Comparison(StatusOf(counts), counts, reports);
  }

  lemma AllReports(l: Snapshot, p: Snapshot, reports: map<string, Report>)
    requires reports.Keys == l.Keys + p.Keys && forall n | n in reports :: IsReportFor(l, p, n, reports[n])
    ensures reports == ReportsOf(l, p)
  {
  }

  // ----- the summary and the gate

  datatype Summary = Summary(
    status: Status, isFresh: bool, metadataComplete: bool,
    truncatedTables: nat, duplicates: nat, businessDrift: nat, criticalDrift: nat, incomplete: nat, nonBusiness: nat)

  function DuplicatesPerTable(reports: map<string, Report>): map<string, nat> {
    map n | n in reports :: reports[n].localDuplicates + reports[n].peerDuplicates
  }

  function TruncatedTables(reports: map<string, Report>): set<string> {
    set n | n in reports && (reports[n].localTruncated || reports[n].peerTruncated)
  }

  /** Fresh evidence: an observation time that parses, not older than allowed. */
  predicate IsFresh(ageSeconds: Option<real>, maxAgeSeconds: int) {
    ageSeconds.Some? && ageSeconds.value <= (if maxAgeSeconds > 0 then maxAgeSeconds as real else 0.0)
  }

  ghost function SummaryOf(c: Comparison, ageSeconds: Option<real>, maxAgeSeconds: int, metadataComplete: bool): Summary
  {
    Summary(
      c.status, IsFresh(ageSeconds, maxAgeSeconds), metadataComplete,
      |TruncatedTables(c.reports)|, Total(DuplicatesPerTable(c.reports)),
      c.counts.business, c.counts.critical, c.counts.incomplete, c.counts.localOnly + c.counts.volatile)
  }

  /** The report loop of `summarize_parity_comparison`. */
  method SumReports(reports: map<string, Report>) returns (truncated: nat, duplicates: nat)
    ensures truncated == |TruncatedTables(reports)| && duplicates == Total(DuplicatesPerTable(reports))
  {
    truncated, duplicates := 0, 0;
    var rest := reports;
    while rest != map[]
      invariant truncated + |TruncatedTables(rest)| == |TruncatedTables(reports)|
      invariant duplicates + Total(DuplicatesPerTable(rest)) == Total(DuplicatesPerTable(reports))
      decreases rest.Keys
    {
      var n :| n in rest;
      var report := rest[n];
      TotalRemove(DuplicatesPerTable(rest), n);
      assert DuplicatesPerTable(rest - {n}) == DuplicatesPerTable(rest) - {n};
      assert TruncatedTables(rest - {n}) == TruncatedTables(rest) - {n};
      assert n in TruncatedTables(rest) <==> report.localTruncated || report.peerTruncated;
      if report.localTruncated || report.peerTruncated {
        truncated := truncated + 1;
      }
      duplicates := duplicates + report.localDuplicates;
      duplicates := duplicates + report.peerDuplicates;
      rest := rest - {n};
    }
  }

  /** `summarize_parity_comparison` of a comparison as `CompareSnapshots` makes it. */
  method SummarizeComparison(c: Comparison, ageSeconds: Option<real>, maxAgeSeconds: int, metadataComplete: bool)
    returns (summary: Summary)
    ensures summary == SummaryOf(c, ageSeconds, maxAgeSeconds, metadataComplete)
  {
    var truncated, duplicates := SumReports(c.reports);
    summary := Summary(
      c.status, IsFresh(ageSeconds, maxAgeSeconds), metadataComplete, truncated, duplicates,
      c.counts.business, c.counts.critical, c.counts.incomplete, c.counts.localOnly + c.counts.volatile);
  }

  datatype Reason = StaleEvidence | MissingMetadata | BadStatus(status: Status) | IncompleteTables
    | TruncatedTable | DuplicateIdentities | Drift | MissingEvidence

  datatype Verdict = Passed | Blocked(reason: Reason)

  /** `strict_alert_gate_from_parity_summary`. */
  function Gate(summary: Option<Summary>, requireMetadata: bool): Verdict {
    match summary
    case None => Blocked(MissingEvidence)
    case Some(s) =>
      if !s.isFresh then Blocked(StaleEvidence)
      else if requireMetadata && !s.metadataComplete then Blocked(MissingMetadata)
      else if s.status != StatusOk && s.status != StatusNonBusinessDifference then Blocked(BadStatus(s.status))
      else if s.incomplete > 0 then Blocked(IncompleteTables)
      else if s.truncatedTables > 0 then Blocked(TruncatedTable)
      else if s.duplicates > 0 then Blocked(DuplicateIdentities)
      else if s.criticalDrift > 0 || s.businessDrift > 0 then Blocked(Drift)
      else Passed
  }
}
