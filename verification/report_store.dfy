/**
 * The reports directory of a project: finding one stored report by id and
 * listing every stored report, newest first. The directory and the JSON
 * parser are oracles: a folder says whether a path exists and lists its
 * files, each with what parsing it as a report gives.
 */
module ReportStore {
  import opened Wrappers
  import opened Reports
  import opened Seqs
  import opened Strings
  import opened ReportOrder

  const ReportsDir: string := ".securecode/reports"
  const LatestReport: string := "latest-report.json"

  /** A file of the reports directory and the report it parses to (None when it does not parse). */
  datatype ReportFile = ReportFile(name: string, parsed: Option<ScanReport>)

  /**
   * The file system as seen from the reports directory: `File.exists()` and
   * `File.listFiles()`, whose None stands for the null of a path that is not
   * a listable directory.
   */
  datatype ReportFolder = ReportFolder(present: string -> bool, listing: string -> Option<seq<ReportFile>>)

  /** `<projectPath>/.securecode/reports`. */
  function ReportsPath(projectPath: string): string {
    PathJoin(projectPath, ReportsDir)
  }

  /** The listing filter: a `.json` file other than the copy of the latest report. */
  predicate IsReportFile(file: ReportFile) {
    Extension(file.name) == "json" && file.name != LatestReport
  }

  /** What reading one file adds: its report, or nothing when it does not parse. */
  function ParsedReport(file: ReportFile): (reports: seq<ScanReport>)
    ensures |reports| <= 1
    ensures |reports| == 1 <==> file.parsed.Some?
  {
    match file.parsed
    case Some(report) => [report]
    case None => []
  }

  /** The reports of a listing, in listing order, skipping the files that do not parse. */
  function ParsedReports(files: seq<ReportFile>): seq<ScanReport> {
    FlatMap(files, ParsedReport)
  }

  /** The reports the directory yields, in listing order; none when it is missing or cannot be listed. */
  function StoredReports(folder: ReportFolder, projectPath: string): seq<ScanReport> {
    var dir := ReportsPath(projectPath);
    if !folder.present(dir) then []
    else
      match folder.listing(dir)
      case None => []
      case Some(files) => ParsedReports(Filter(files, IsReportFile))
  }

  function HasReportId(reportId: string): ScanReport -> bool {
    (report: ScanReport) => report.reportId == reportId
  }

  /** `loadReport`: the first stored report, in listing order, with the id. */
  function LoadedReport(folder: ReportFolder, projectPath: string, reportId: string): Option<ScanReport> {
    Find(StoredReports(folder, projectPath), HasReportId(reportId))
  }

  /** `getAllReports`: every stored report, newest first. */
  function AllReports(folder: ReportFolder, projectPath: string): seq<ScanReport> {
    SortByEndDescending(StoredReports(folder, projectPath))
  }

  /** `loadReport`: the listing filtered, then read in order until a report with the id turns up. */
  method LoadReport(folder: ReportFolder, projectPath: string, reportId: string) returns (report: Option<ScanReport>)
    ensures report == LoadedReport(folder, projectPath, reportId)
  {
    var dir := ReportsPath(projectPath);
    if !folder.present(dir) {
      return None;
    }
    var listing := folder.listing(dir);
    if listing.None? {
      return None;
    }
    var files := Filter(listing.value, IsReportFile);
    for i := 0 to |files|
      invariant forall earlier :: earlier in ParsedReports(files[..i]) ==> earlier.reportId != reportId
    {
      FlatMapStep(files, i, ParsedReport);
      if files[i].parsed.Some? && files[i].parsed.value.reportId == reportId {
        FirstWithId(files, reportId, i);
        return files[i].parsed;
      }
    }
    assert files[..|files|] == files;
    return None;
  }

  /** The loop's early return: no earlier file held the id, so this file's report is the first one with it. */
  lemma FirstWithId(files: seq<ReportFile>, reportId: string, i: nat)
    requires i < |files| && files[i].parsed.Some? && files[i].parsed.value.reportId == reportId
    requires forall earlier :: earlier in ParsedReports(files[..i]) ==> earlier.reportId != reportId
    ensures Find(ParsedReports(files), HasReportId(reportId)) == files[i].parsed
  {
    FlatMapSplit(files, ParsedReport, i);
    var before := ParsedReports(files[..i]);
    assert ParsedReports(files)[|before|] == files[i].parsed.value;
    FindFirst(ParsedReports(files), HasReportId(reportId), |before|);
  }

  /** `getAllReports`: the parsed reports of the filtered listing, collected in order, then sorted newest first. */
  method GetAllReports(folder: ReportFolder, projectPath: string) returns (all: seq<ScanReport>)
    ensures all == AllReports(folder, projectPath)
  {
    var dir := ReportsPath(projectPath);
    if !folder.present(dir) {
      return [];
    }
    var reports: seq<ScanReport> := [];
    var listing := folder.listing(dir);
    if listing.Some? {
      var files := Filter(listing.value, IsReportFile);
      for i := 0 to |files|
        invariant reports == ParsedReports(files[..i])
      {
        FlatMapStep(files, i, ParsedReport);
        match files[i].parsed
        case Some(report) =>
          reports := reports + [report];
        case None =>
      }
      assert files[..|files|] == files;
    }
    all := SortByEndDescending(reports);
  }

  lemma {:induction false} ParsedReportsMembership(files: seq<ReportFile>, report: ScanReport)
    ensures report in ParsedReports(files) <==> exists file :: file in files && file.parsed == Some(report)
  {
    if files != [] {
      var init := files[..|files| - 1];
      var last := files[|files| - 1];
      ParsedReportsMembership(init, report);
      assert ParsedReports(files) == ParsedReports(init) + ParsedReport(last);
      if exists file :: file in files && file.parsed == Some(report) {
        var file :| file in files && file.parsed == Some(report);
        if file != last {
          assert file in init;
        }
      }
      if exists file :: file in init && file.parsed == Some(report) {
        var file :| file in init && file.parsed == Some(report);
        assert file in files;
      }
    }
  }

  /** Some report file listed in `dir` parses to `report`. */
  predicate ListedReport(folder: ReportFolder, dir: string, report: ScanReport) {
    && folder.present(dir)
    && folder.listing(dir).Some?
    && exists file :: file in folder.listing(dir).value && IsReportFile(file) && file.parsed == Some(report)
  }

  /**
   * `getAllReports` returns exactly the reports parsed from the listed `.json`
   * files other than `latest-report.json`: nothing when the directory is
   * missing or cannot be listed, and never a file that does not parse.
   */
  lemma AllReportsMembership(folder: ReportFolder, projectPath: string, report: ScanReport)
    ensures report in AllReports(folder, projectPath) <==> ListedReport(folder, ReportsPath(projectPath), report)
  {
    var dir := ReportsPath(projectPath);
    var stored := StoredReports(folder, projectPath);
    SortByEndPermutes(stored);
    assert report in AllReports(folder, projectPath) <==> report in multiset(stored);
    if folder.present(dir) && folder.listing(dir).Some? {
      var files := folder.listing(dir).value;
      ParsedReportsMembership(Filter(files, IsReportFile), report);
      forall file
        ensures file in Filter(files, IsReportFile) <==> file in files && IsReportFile(file)
      {
        FilterMembership(files, IsReportFile, file);
      }
    }
  }

  /** `getAllReports` lists the newest report first and keeps listing order among reports that ended together. */
  lemma AllReportsOrder(folder: ReportFolder, projectPath: string, time: int)
    ensures NewestFirst(AllReports(folder, projectPath))
    ensures Filter(AllReports(folder, projectPath), EndsAt(time)) == Filter(StoredReports(folder, projectPath), EndsAt(time))
  {
    SortByEndNewestFirst(StoredReports(folder, projectPath));
    SortByEndStable(StoredReports(folder, projectPath), time);
  }

  /**
   * `loadReport` finds a report exactly when `getAllReports` lists one with
   * that id, and what it finds is such a report.
   */
  lemma LoadedReportListed(folder: ReportFolder, projectPath: string, reportId: string)
    ensures LoadedReport(folder, projectPath, reportId).None?
        <==> forall report :: report in AllReports(folder, projectPath) ==> report.reportId != reportId
    ensures LoadedReport(folder, projectPath, reportId).Some? ==>
              var report := LoadedReport(folder, projectPath, reportId).value;
              report in AllReports(folder, projectPath) && report.reportId == reportId
  {
    var stored := StoredReports(folder, projectPath);
    SortByEndPermutes(stored);
    forall report
      ensures report in AllReports(folder, projectPath) <==> report in stored
    {
      assert report in AllReports(folder, projectPath) <==> report in multiset(stored);
    }
  }
}
