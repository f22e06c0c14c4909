/**
 * `generateReport`: a scan result becomes a report. The findings are
 * tracked against the previous report (or all marked NEW on a first scan),
 * then summarised and rolled up per compliance framework. The clock reading
 * and the report id are parameters.
 */
module ReportService {
  import opened Wrappers
  import opened Rules
  import opened Reports
  import opened Seqs
  import opened ScanEngine
  import opened VulnerabilityTracking
  import opened ReportSummary
  import opened ComplianceRollup

  /** The findings a report records: tracked against the previous report's, or all NEW without one. */
  function TrackedAgainst(current: seq<Vulnerability>, previous: Option<ScanReport>, now: int): seq<Vulnerability> {
    match previous
    case None => MarkedNew(current)
    case Some(report) => Tracked(current, report.vulnerabilities, now)
  }

  function PreviousId(previous: Option<ScanReport>): Option<string> {
    match previous
    case None => None
    case Some(report) => Some(report.reportId)
  }

  /** The report `generateReport` builds at time `now`: the scan ran for its duration and ended now. */
  function GeneratedReport(
    reportId: string, projectPath: string, projectName: string,
    scanResult: ScanResult, previous: Option<ScanReport>, now: int): ScanReport
  {
    var tracked := TrackedAgainst(scanResult.vulnerabilities, previous, now);
    ScanReport(reportId, projectName, projectPath, now - scanResult.scanDuration, now, scanResult.scanDuration,
      ReportVersion, tracked, CalculateSummary(tracked),
      scanResult.rulesExecuted, scanResult.filesScanned, scanResult.linesScanned,
      PreviousId(previous), ComplianceReport(tracked))
  }

  /** The tracking step of `generateReport`. */
  method TrackFindings(current: seq<Vulnerability>, previous: Option<ScanReport>, now: int) returns (tracked: seq<Vulnerability>)
    ensures tracked == TrackedAgainst(current, previous, now)
  {
    if previous.Some? {
      tracked := TrackVulnerabilityStatus(current, previous.value.vulnerabilities, now);
    } else {
      tracked := MarkedNew(current);
    }
  }

  /** `generateReport`: track, summarise, roll up, and assemble the report. */
  method GenerateReport(
    reportId: string, projectPath: string, projectName: string,
    scanResult: ScanResult, previous: Option<ScanReport>, now: int)
    returns (report: ScanReport)
    ensures report == GeneratedReport(reportId, projectPath, projectName, scanResult, previous, now)
  {
    var startTime := now - scanResult.scanDuration;
    var endTime := now;
    var tracked := TrackFindings(scanResult.vulnerabilities, previous, now);
    var summary := CalculateSummary(tracked);
    var complianceStatus := CalculateComplianceStatus(tracked);
    report := ScanReport(reportId, projectName, projectPath, startTime, endTime, scanResult.scanDuration,
      ReportVersion, tracked, summary,
      scanResult.rulesExecuted, scanResult.filesScanned, scanResult.linesScanned,
      PreviousId(previous), complianceStatus);
  }

  /**
   * A generated report never holds a FIXED finding, so its summary counts no
   * FIXED finding and its `total` is the NEW findings plus the PERSISTENT ones.
   */
  lemma GeneratedNeverFixed(
    reportId: string, projectPath: string, projectName: string,
    scanResult: ScanResult, previous: Option<ScanReport>, now: int)
    ensures var report := GeneratedReport(reportId, projectPath, projectName, scanResult, previous, now);
            && (forall i :: 0 <= i < |report.vulnerabilities| ==> report.vulnerabilities[i].status != Fixed)
            && Tally(report.summary.byStatus, Fixed) == 0
            && report.summary.total == report.summary.newCount + report.summary.persistentCount
  {
    var tracked := TrackedAgainst(scanResult.vulnerabilities, previous, now);
    if previous.Some? {
      TrackedNeverFixed(scanResult.vulnerabilities, previous.value.vulnerabilities, now);
    }
    assert forall i :: 0 <= i < |tracked| ==> tracked[i].status != Fixed;
    assert CountKey(tracked, StatusOf, Fixed) == 0;
    SummaryConsistent(tracked);
  }

  /**
   * Without a previous report every finding of the scan is recorded, in
   * order, as NEW and otherwise unchanged, and the report links to no
   * previous one.
   */
  lemma GeneratedFirstScan(
    reportId: string, projectPath: string, projectName: string,
    scanResult: ScanResult, now: int)
    ensures var report := GeneratedReport(reportId, projectPath, projectName, scanResult, None, now);
            && report.previousReportId == None
            && |report.vulnerabilities| == |scanResult.vulnerabilities|
            && forall i :: 0 <= i < |scanResult.vulnerabilities| ==>
                 report.vulnerabilities[i] == scanResult.vulnerabilities[i].(status := New)
  {
    var marked := MarkedNew(scanResult.vulnerabilities);
    forall i | 0 <= i < |scanResult.vulnerabilities|
      ensures marked[i] == scanResult.vulnerabilities[i].(status := New)
    {
      assert marked[i].(status := scanResult.vulnerabilities[i].status) == scanResult.vulnerabilities[i];
    }
  }

  /**
   * With a previous report the report links to it; the scan's findings come
   * first, in order, each PERSISTENT exactly when the previous report has its
   * fingerprint, and after them one CLOSED finding per previous finding whose
   * fingerprint is gone.
   */
  lemma GeneratedFollowUp(
    reportId: string, projectPath: string, projectName: string,
    scanResult: ScanResult, previous: ScanReport, now: int)
    ensures var report := GeneratedReport(reportId, projectPath, projectName, scanResult, Some(previous), now);
            var current := scanResult.vulnerabilities;
            && report.previousReportId == Some(previous.reportId)
            && |report.vulnerabilities| == |current| + |Filter(previous.vulnerabilities, Missing(Fingerprints(current)))|
            && forall i :: 0 <= i < |current| ==>
                 && report.vulnerabilities[i].fingerprint == current[i].fingerprint
                 && (report.vulnerabilities[i].status == Persistent <==>
                       exists j :: 0 <= j < |previous.vulnerabilities| && previous.vulnerabilities[j].fingerprint == current[i].fingerprint)
  {
    var current := scanResult.vulnerabilities;
    TrackedLength(current, previous.vulnerabilities, now);
    forall i | 0 <= i < |current|
      ensures Tracked(current, previous.vulnerabilities, now)[i].fingerprint == current[i].fingerprint
      ensures Tracked(current, previous.vulnerabilities, now)[i].status == Persistent <==>
                exists j :: 0 <= j < |previous.vulnerabilities| && previous.vulnerabilities[j].fingerprint == current[i].fingerprint
    {
      TrackedCurrent(current, previous.vulnerabilities, now, i);
    }
  }

  /** Every framework in a generated report has a violated control and a compliance percentage of 0. */
  lemma GeneratedCompliance(
    reportId: string, projectPath: string, projectName: string,
    scanResult: ScanResult, previous: Option<ScanReport>, now: int, framework: ComplianceFramework)
    requires framework in GeneratedReport(reportId, projectPath, projectName, scanResult, previous, now).complianceStatus
    ensures var status := GeneratedReport(reportId, projectPath, projectName, scanResult, previous, now).complianceStatus[framework];
            && status.totalControls >= 1
            && status.passedControls == 0
            && status.CompliancePercentage() == 0.0
  {
    var tracked := TrackedAgainst(scanResult.vulnerabilities, previous, now);
    ComplianceReportStatus(tracked, framework);
    StatusForFailed(framework, Violations(tracked, framework));
  }
}
