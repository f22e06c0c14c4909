/**
 * The report data model: findings (vulnerabilities) and their status, the
 * summary, per-framework compliance status, the persisted scan report and
 * the scan configuration with its defaults.
 */
module Reports {
  import opened Wrappers
  import opened Rules

  datatype VulnerabilityStatus = New | Persistent | Closed | Fixed

  /** The cross-scan identity of a finding; its formula is not part of this model, only its equality. */
  type Fingerprint = string

  /** A finding, with only the fields the scan and report code read or write. */
  datatype Vulnerability = Vulnerability(
    ruleId: string,
    ruleName: string,
    severity: Severity,
    category: RuleCategory,
    description: string,
    filePath: string,
    lineNumber: int,
    columnNumber: int,
    codeSnippet: string,
    compliance: seq<ComplianceTag>,
    quickFix: Option<QuickFix>,
    status: VulnerabilityStatus,
    firstDetected: int,
    lastDetected: int,
    fingerprint: Fingerprint)

  /**
   * The fields a finding gets from its constructor's defaults, which are not
   * part of this model: they are supplied from outside.
   */
  datatype VulnerabilityDefaults = VulnerabilityDefaults(
    status: VulnerabilityStatus,
    firstDetected: int,
    lastDetected: int,
    fingerprint: Fingerprint)

  /** Active findings are those neither CLOSED nor FIXED. */
  predicate IsActive(v: Vulnerability) {
    v.status != Closed && v.status != Fixed
  }

  function StatusOf(v: Vulnerability): VulnerabilityStatus { v.status }
  function SeverityOf(v: Vulnerability): Severity { v.severity }
  function CategoryOf(v: Vulnerability): RuleCategory { v.category }

  datatype VulnerabilitySummary = VulnerabilitySummary(
    total: nat,
    newCount: nat,
    persistentCount: nat,
    closedCount: nat,
    bySeverity: map<Severity, nat>,
    byCategory: map<RuleCategory, nat>,
    byStatus: map<VulnerabilityStatus, nat>)

  datatype ComplianceStatus = ComplianceStatus(
    framework: ComplianceFramework,
    totalControls: int,
    passedControls: int,
    failedControls: int,
    violations: seq<Vulnerability>)
  {
    /** Passed controls as a percentage of all controls; 0, not a division by zero, when there are no controls. */
    function CompliancePercentage(): (pct: real)
      ensures totalControls <= 0 ==> pct == 0.0
      ensures 0 <= passedControls <= totalControls ==> 0.0 <= pct <= 100.0
      ensures totalControls > 0 && passedControls == totalControls ==> pct == 100.0
    {
      if totalControls > 0 then (passedControls as real / totalControls as real) * 100.0 else 0.0
    }
  }

  const ReportVersion: string := "1.0.0"

  datatype ScanReport = ScanReport(
    reportId: string,
    projectName: string,
    projectPath: string,
    scanStartTime: int,
    scanEndTime: int,
    scanDuration: int,
    version: string,
    vulnerabilities: seq<Vulnerability>,
    summary: VulnerabilitySummary,
    rulesExecuted: int,
    filesScanned: int,
    linesScanned: int,
    previousReportId: Option<string>,
    complianceStatus: map<ComplianceFramework, ComplianceStatus>)

  /**
   * The report constructor with its defaults: the duration spans the scan's
   * time bounds, the version is "1.0.0", there is no previous report and no
   * compliance status. The random report id is passed in.
   */
  function NewScanReport(
    reportId: string, projectName: string, projectPath: string,
    scanStartTime: int, scanEndTime: int,
    vulnerabilities: seq<Vulnerability>, summary: VulnerabilitySummary,
    rulesExecuted: int, filesScanned: int, linesScanned: int): (r: ScanReport)
    ensures r.scanStartTime + r.scanDuration == r.scanEndTime
    ensures r.version == ReportVersion
    ensures r.previousReportId == None && r.complianceStatus == map[]
    ensures r.reportId == reportId && r.vulnerabilities == vulnerabilities && r.summary == summary
  {
    ScanReport(reportId, projectName, projectPath, scanStartTime, scanEndTime,
      scanEndTime - scanStartTime, ReportVersion, vulnerabilities, summary,
      rulesExecuted, filesScanned, linesScanned, None, map[])
  }

  datatype ScanConfig = ScanConfig(
    includePatterns: seq<string>,
    excludePatterns: seq<string>,
    enabledRules: seq<string>,
    disabledRules: seq<string>,
    customRulesPath: string,
    minSeverity: Severity)

  const DefaultIncludePatterns: seq<string> := ["**/*.java", "**/*.kt", "**/*.py", "**/*.js", "**/*.ts", "**/*.go"]
  const DefaultExcludePatterns: seq<string> := ["**/test/**", "**/build/**", "**/target/**", "**/node_modules/**", "**/.git/**"]
  const DefaultCustomRulesPath: string := ".securecode/rules"

  /** `ScanConfig()` with every field at its default. */
  function DefaultScanConfig(): (c: ScanConfig)
    ensures c.enabledRules == [] && c.disabledRules == []
    ensures c.customRulesPath == ".securecode/rules" && c.minSeverity == Info
    ensures c.includePatterns == ["**/*.java", "**/*.kt", "**/*.py", "**/*.js", "**/*.ts", "**/*.go"]
    ensures c.excludePatterns == ["**/test/**", "**/build/**", "**/target/**", "**/node_modules/**", "**/.git/**"]
  {
    ScanConfig(DefaultIncludePatterns, DefaultExcludePatterns, [], [], DefaultCustomRulesPath, Info)
  }
}
