/**
 * The scan engine: which rules run (the id and severity filters), which files
 * are scanned (exclude and include globs over the project walk), and the scan
 * loop that runs every rule on every file and collects the findings. The file
 * walk, reading and line counting reach the engine as a ProjectTree, the clock
 * as two timestamps, and the regex engine as a RegexFinder.
 */
module ScanEngine {
  import opened Wrappers
  import opened Rules
  import opened Reports
  import opened Seqs
  import opened Strings
  import opened Glob
  import opened PatternMatcher
  import opened RuleLoader
  import opened GlobFindings

  // ---------------------------------------------------------------------
  // Rule selection

  /** The id filter: the allowlist when it is non-empty, otherwise the blocklist. */
  function IdSelected(config: ScanConfig): Rule -> bool {
    (rule: Rule) =>
      if |config.enabledRules| > 0 then rule.id in config.enabledRules
      else if |config.disabledRules| > 0 then rule.id !in config.disabledRules
      else true
  }

  /** The severity threshold: an ordinal at most the configured one, so at least as severe. */
  function SevereEnough(config: ScanConfig): Rule -> bool {
    (rule: Rule) => Ordinal(rule.severity) <= Ordinal(config.minSeverity)
  }

  /** The rule filters of `scan`, id filter first, then severity. */
  function FilterRules(rules: seq<Rule>, config: ScanConfig): (kept: seq<Rule>)
    ensures |kept| <= |rules|
    ensures forall i :: 0 <= i < |kept| ==> AtLeastAsSevere(kept[i].severity, config.minSeverity)
  {
    Filter(Filter(rules, IdSelected(config)), SevereEnough(config))
  }

  /**
   * A rule is kept exactly when it passes the threshold and the id filter: in
   * allowlist mode it is listed there, whatever the blocklist says; otherwise
   * it is not on the blocklist.
   */
  lemma FilterRulesMembership(rules: seq<Rule>, config: ScanConfig, rule: Rule)
    ensures |config.enabledRules| > 0 ==>
      (rule in FilterRules(rules, config) <==> rule in rules && rule.id in config.enabledRules && AtLeastAsSevere(rule.severity, config.minSeverity))
    ensures |config.enabledRules| == 0 ==>
      (rule in FilterRules(rules, config) <==> rule in rules && rule.id !in config.disabledRules && AtLeastAsSevere(rule.severity, config.minSeverity))
  {
    FilterMembership(rules, IdSelected(config), rule);
    FilterMembership(Filter(rules, IdSelected(config)), SevereEnough(config), rule);
  }

  /** With both id lists empty and the INFO threshold, every rule runs, in its original order. */
  lemma FilterRulesKeepsAllByDefault(rules: seq<Rule>, config: ScanConfig)
    requires config.enabledRules == [] && config.disabledRules == [] && config.minSeverity == Info
    ensures FilterRules(rules, config) == rules
  {
    FilterAll(rules, IdSelected(config));
    forall i | 0 <= i < |rules|
      ensures SevereEnough(config)(rules[i])
    {
      SeverityTotalOrder();
    }
    FilterAll(rules, SevereEnough(config));
  }

  // ---------------------------------------------------------------------
  // File selection

  /**
   * The project as the walk sees it: whether the root exists and is a
   * directory, and every path under it (the root and directories included),
   * in walk order.
   */
  datatype ProjectTree = ProjectTree(present: bool, isDirectory: bool, walk: seq<SourceFile>)

  /** A glob matcher: `matches(relativePath, pattern)`. */
  type GlobMatcher = (string, string) -> bool

  /** `patterns.any { matches(path, it) }`. */
  predicate AnyPatternMatches(path: string, patterns: seq<string>, matches: GlobMatcher) {
    exists i :: 0 <= i < |patterns| && matches(path, patterns[i])
  }

  /** A regular file that no exclude pattern matches and some include pattern matches. */
  predicate Selected(file: SourceFile, config: ScanConfig, matches: GlobMatcher) {
    file.regular
    && !AnyPatternMatches(file.relativePath, config.excludePatterns, matches)
    && AnyPatternMatches(file.relativePath, config.includePatterns, matches)
  }

  function SelectedBy(config: ScanConfig, matches: GlobMatcher): SourceFile -> bool {
    (file: SourceFile) => Selected(file, config, matches)
  }

  /** The files a scan covers: none when the root is missing or not a directory, otherwise the selected ones in walk order. */
  function FilesToScan(tree: ProjectTree, config: ScanConfig, matches: GlobMatcher): (files: seq<SourceFile>)
    ensures forall i :: 0 <= i < |files| ==> Selected(files[i], config, matches)
  {
    if !tree.present || !tree.isDirectory then []
    else Filter(tree.walk, SelectedBy(config, matches))
  }

  /**
   * A file is scanned exactly when the root is a directory, the walk reaches
   * it and it is selected; in particular a file an exclude pattern matches is
   * never scanned, whatever the include patterns say.
   */
  lemma FilesToScanMembership(tree: ProjectTree, config: ScanConfig, matches: GlobMatcher, file: SourceFile)
    ensures file in FilesToScan(tree, config, matches) <==>
      tree.present && tree.isDirectory && file in tree.walk && Selected(file, config, matches)
    ensures AnyPatternMatches(file.relativePath, config.excludePatterns, matches) ==> file !in FilesToScan(tree, config, matches)
  {
    if tree.present && tree.isDirectory {
      FilterMembership(tree.walk, SelectedBy(config, matches), file);
    }
  }

  /** `findFilesToScan`, with `matches` as the glob matcher. */
  method FindFilesToScan(tree: ProjectTree, config: ScanConfig, matches: GlobMatcher) returns (files: seq<SourceFile>)
    ensures files == FilesToScan(tree, config, matches)
  {
    if !tree.present || !tree.isDirectory {
      return [];
    }
    files := [];
    for i := 0 to |tree.walk|
      invariant files == Filter(tree.walk[..i], SelectedBy(config, matches))
    {
      FilterStep(tree.walk, i, SelectedBy(config, matches));
      var path := tree.walk[i];
      if path.regular {
        var excluded := AnyPatternMatches(path.relativePath, config.excludePatterns, matches);
        if !excluded {
          var included := AnyPatternMatches(path.relativePath, config.includePatterns, matches);
          if included {
            files := files + [path];
          }
        }
      }
    }
    assert tree.walk[..|tree.walk|] == tree.walk;
  }

  /** Every include and exclude pattern is one the regex translation handles. */
  predicate SafeGlobs(config: ScanConfig) {
    && (forall i :: 0 <= i < |config.includePatterns| ==> SafeGlob(config.includePatterns[i]))
    && (forall i :: 0 <= i < |config.excludePatterns| ==> SafeGlob(config.excludePatterns[i]))
  }

  /** `matchesGlobPattern` as written: the translated regex must match the whole path. */
  predicate AsWrittenMatch(path: string, pattern: string) {
    SafeGlob(pattern) && MatchesGlobPattern(path, pattern)
  }

  /**
   * With patterns the translation handles, a file is selected by the matcher
   * as written exactly when it is regular, no translated exclude pattern
   * matches its relative path and some translated include pattern does.
   */
  lemma AsWrittenSelection(file: SourceFile, config: ScanConfig)
    requires SafeGlobs(config)
    ensures Selected(file, config, AsWrittenMatch) <==>
      && file.regular
      && !(exists i :: 0 <= i < |config.excludePatterns| && MatchesGlobPattern(file.relativePath, config.excludePatterns[i]))
      && (exists i :: 0 <= i < |config.includePatterns| && MatchesGlobPattern(file.relativePath, config.includePatterns[i]))
  {
  }

  /** The default configuration's patterns are all ones the translation handles. */
  lemma DefaultConfigSafe()
    ensures SafeGlobs(DefaultScanConfig())
  {
    DefaultPatternsSafe();
  }

  /** A configuration that includes Java files by the default Java pattern and excludes nothing. */
  function JavaOnlyConfig(): ScanConfig {
    ScanConfig([DefaultIncludePatterns[0]], [], [], [], DefaultCustomRulesPath, Info)
  }

  /**
   * Selection with the default Java pattern: the matcher as written passes
   * over `src/Main.java`, reading the pattern as a glob selects it.
   */
  lemma NestedJavaSelection(file: SourceFile)
    requires file.regular && file.relativePath == "src/Main.java"
    ensures !Selected(file, JavaOnlyConfig(), AsWrittenMatch)
    ensures Selected(file, JavaOnlyConfig(), IntendedMatch)
  {
    var config := JavaOnlyConfig();
    DefaultIncludeMissesNestedJava();
    DefaultIncludeSelectsNestedJava();
    assert config.includePatterns == [DefaultIncludePatterns[0]];
    assert IntendedMatch(file.relativePath, config.includePatterns[0]);
  }

  /**
   * A project holding only `src/Main.java`, scanned with the default Java
   * pattern: the scan as written covers no file, the glob reading covers it.
   */
  lemma NestedJavaScan(tree: ProjectTree, file: SourceFile)
    requires tree.present && tree.isDirectory && tree.walk == [file]
    requires file.regular && file.relativePath == "src/Main.java"
    ensures FilesToScan(tree, JavaOnlyConfig(), AsWrittenMatch) == []
    ensures FilesToScan(tree, JavaOnlyConfig(), IntendedMatch) == [file]
  {
    NestedJavaSelection(file);
    FilterStep(tree.walk, 0, SelectedBy(JavaOnlyConfig(), AsWrittenMatch));
    FilterStep(tree.walk, 0, SelectedBy(JavaOnlyConfig(), IntendedMatch));
    assert tree.walk[..1] == tree.walk;
  }

  // ---------------------------------------------------------------------
  // The scan

  /** What a scan returns; the duration is the difference of the two clock readings. */
  datatype ScanResult = ScanResult(
    vulnerabilities: seq<Vulnerability>,
    rulesExecuted: nat,
    filesScanned: nat,
    linesScanned: nat,
    scanDuration: int)

  /** `matches.map { it.toVulnerability() }`. */
  function Converted(matches: seq<Match>, defaults: Match -> VulnerabilityDefaults): seq<Vulnerability> {
    seq(|matches|, i requires 0 <= i < |matches| => ToVulnerability(matches[i], defaults(matches[i])))
  }

  function RuleFindings(file: SourceFile, find: RegexFinder, defaults: Match -> VulnerabilityDefaults): Rule -> seq<Vulnerability> {
    (rule: Rule) => Converted(RuleMatches(rule, file, find), defaults)
  }

  /** A file's findings: none when counting its lines fails, otherwise each rule's in rule order. */
  function FileFindings(rules: seq<Rule>, find: RegexFinder, defaults: Match -> VulnerabilityDefaults): SourceFile -> seq<Vulnerability> {
    (file: SourceFile) =>
      if file.lineCount.None? then [] else FlatMap(rules, RuleFindings(file, find, defaults))
  }

  /** The findings of all files, file by file. */
  function Findings(files: seq<SourceFile>, rules: seq<Rule>, find: RegexFinder, defaults: Match -> VulnerabilityDefaults): seq<Vulnerability> {
    FlatMap(files, FileFindings(rules, find, defaults))
  }

  /** The counted lines of the files; a file whose count fails adds nothing. */
  function LinesScanned(files: seq<SourceFile>): nat {
    if files == [] then 0 else LinesScanned(files[..|files| - 1]) + files[|files| - 1].lineCount.GetOr(0)
  }

  /** The rules a scan runs: the loaded rules (the custom folder resolved against the project) after the filters. */
  function ScanRules(sources: RuleSources, projectPath: string, config: ScanConfig): seq<Rule> {
    FilterRules(AllRules(sources, Some(PathJoin(projectPath, config.customRulesPath))), config)
  }

  /** The result of a scan whose file selection uses `matches`. */
  function ScanOutcome(projectPath: string, config: ScanConfig, tree: ProjectTree, sources: RuleSources, matches: GlobMatcher,
                       find: RegexFinder, defaults: Match -> VulnerabilityDefaults, startTime: int, endTime: int): ScanResult
  {
    var rules := ScanRules(sources, projectPath, config);
    var files := FilesToScan(tree, config, matches);
    ScanResult(Findings(files, rules, find, defaults), |rules|, |files|, LinesScanned(files), endTime - startTime)
  }

  /** The inner loop of `scan` for one readable file: each rule's matches, converted, in rule order. */
  method ScanFile(file: SourceFile, rules: seq<Rule>, find: RegexFinder, defaults: Match -> VulnerabilityDefaults)
    returns (found: seq<Vulnerability>)
    ensures found == FlatMap(rules, RuleFindings(file, find, defaults))
  {
    found := [];
    for k := 0 to |rules|
      invariant found == FlatMap(rules[..k], RuleFindings(file, find, defaults))
    {
      FlatMapStep(rules, k, RuleFindings(file, find, defaults));
      var matches := MatchRule(rules[k], file, find);
      found := found + Converted(matches, defaults);
    }
    assert rules[..|rules|] == rules;
  }

  lemma FindingsStep(files: seq<SourceFile>, i: nat, rules: seq<Rule>, find: RegexFinder, defaults: Match -> VulnerabilityDefaults)
    requires i < |files|
    ensures Findings(files[..i + 1], rules, find, defaults)
         == Findings(files[..i], rules, find, defaults)
          + (if files[i].lineCount.None? then [] else FlatMap(rules, RuleFindings(files[i], find, defaults)))
  {
    FlatMapStep(files, i, FileFindings(rules, find, defaults));
  }

  lemma LinesScannedStep(files: seq<SourceFile>, i: nat)
    requires i < |files|
    ensures LinesScanned(files[..i + 1]) == LinesScanned(files[..i]) + files[i].lineCount.GetOr(0)
  {
    assert files[..i + 1][..i] == files[..i];
  }

  /**
   * The outer loop of `scan`: a file whose lines can be counted contributes
   * its line count and its findings; a file whose count fails contributes
   * neither.
   */
  method ScanFiles(files: seq<SourceFile>, rules: seq<Rule>, find: RegexFinder, defaults: Match -> VulnerabilityDefaults)
    returns (vulnerabilities: seq<Vulnerability>, linesScanned: nat)
    ensures vulnerabilities == Findings(files, rules, find, defaults)
    ensures linesScanned == LinesScanned(files)
  {
    vulnerabilities := [];
    linesScanned := 0;
    for i := 0 to |files|
      invariant vulnerabilities == Findings(files[..i], rules, find, defaults)
      invariant linesScanned == LinesScanned(files[..i])
    {
      var file := files[i];
      FindingsStep(files, i, rules, find, defaults);
      LinesScannedStep(files, i);
      if file.lineCount.Some? {
        linesScanned := linesScanned + file.lineCount.value;
        var found := ScanFile(file, rules, find, defaults);
        vulnerabilities := vulnerabilities + found;
      } else {
        assert vulnerabilities + [] == vulnerabilities;
      }
    }
    assert files[..|files|] == files;
  }

  /**
   * `scan`: the loaded rules after the filters run on the selected files;
   * every selected file and every filtered rule is counted, even a file that
   * fails. Files are selected by the glob matcher as written.
   */
  method Scan(projectPath: string, config: ScanConfig, tree: ProjectTree, sources: RuleSources,
              find: RegexFinder, defaults: Match -> VulnerabilityDefaults, startTime: int, endTime: int)
    returns (result: ScanResult)
    requires SafeGlobs(config)
    ensures result == ScanOutcome(projectPath, config, tree, sources, AsWrittenMatch, find, defaults, startTime, endTime)
  {
    var customRulesPath := PathJoin(projectPath, config.customRulesPath);
    var loaded := LoadAllRules(sources, Some(customRulesPath));
    var rules := FilterRules(loaded, config);
    var files := FindFilesToScan(tree, config, AsWrittenMatch);
    var vulnerabilities, linesScanned := ScanFiles(files, rules, find, defaults);
    result := ScanResult(vulnerabilities, |rules|, |files|, linesScanned, endTime - startTime);
  }

  /** Every finding in one file comes from one enabled rule and names that file. */
  lemma FileFindingsProvenance(file: SourceFile, rules: seq<Rule>, find: RegexFinder, defaults: Match -> VulnerabilityDefaults, l: nat)
    requires l < |FlatMap(rules, RuleFindings(file, find, defaults))|
    ensures var v := FlatMap(rules, RuleFindings(file, find, defaults))[l];
            && v.filePath == file.path
            && exists r :: 0 <= r < |rules| && rules[r].enabled
                 && v.ruleId == rules[r].id && v.severity == rules[r].severity && v.category == rules[r].category
  {
    var perRule := RuleFindings(file, find, defaults);
    FlatMapOrigin(rules, perRule, l);
    var r, n :| 0 <= r < |rules| && 0 <= n < |perRule(rules[r])| && FlatMap(rules, perRule)[l] == perRule(rules[r])[n];
    RuleMatchesProvenance(rules[r], file, find, n);
  }

  /**
   * Every finding comes from one rule run on one file whose lines could be
   * counted: it names that file and carries that rule's id, severity and
   * category, and the rule is enabled.
   */
  lemma FindingsProvenance(files: seq<SourceFile>, rules: seq<Rule>, find: RegexFinder, defaults: Match -> VulnerabilityDefaults, j: nat)
    requires j < |Findings(files, rules, find, defaults)|
    ensures var v := Findings(files, rules, find, defaults)[j];
            exists k, r :: 0 <= k < |files| && 0 <= r < |rules|
              && files[k].lineCount.Some? && v.filePath == files[k].path
              && rules[r].enabled && v.ruleId == rules[r].id && v.severity == rules[r].severity && v.category == rules[r].category
  {
    var f := FileFindings(rules, find, defaults);
    FlatMapOrigin(files, f, j);
    var k, l :| 0 <= k < |files| && 0 <= l < |f(files[k])| && FlatMap(files, f)[j] == f(files[k])[l];
    assert files[k].lineCount.Some?;
    FileFindingsProvenance(files[k], rules, find, defaults, l);
  }

  /**
   * Every finding of a scan is at least as severe as the threshold, was
   * produced by a loaded rule that passed the filters, and names a selected
   * file whose lines could be counted.
   */
  lemma ScanFindingsProvenance(projectPath: string, config: ScanConfig, tree: ProjectTree, sources: RuleSources, matches: GlobMatcher,
                               find: RegexFinder, defaults: Match -> VulnerabilityDefaults, startTime: int, endTime: int, j: nat)
    requires j < |ScanOutcome(projectPath, config, tree, sources, matches, find, defaults, startTime, endTime).vulnerabilities|
    ensures var v := ScanOutcome(projectPath, config, tree, sources, matches, find, defaults, startTime, endTime).vulnerabilities[j];
            && AtLeastAsSevere(v.severity, config.minSeverity)
            && (exists rule :: rule in ScanRules(sources, projectPath, config) && rule.enabled && v.ruleId == rule.id && v.severity == rule.severity)
            && (exists file :: file in FilesToScan(tree, config, matches) && file.lineCount.Some? && v.filePath == file.path)
  {
    var rules := ScanRules(sources, projectPath, config);
    var files := FilesToScan(tree, config, matches);
    FindingsProvenance(files, rules, find, defaults, j);
    var v := Findings(files, rules, find, defaults)[j];
    var k, r :| 0 <= k < |files| && 0 <= r < |rules|
              && files[k].lineCount.Some? && v.filePath == files[k].path
              && rules[r].enabled && v.ruleId == rules[r].id && v.severity == rules[r].severity && v.category == rules[r].category;
    assert rules[r] in rules;
    assert files[k] in files;
  }

  /** LinesScanned adds up over concatenation. */
  lemma {:induction false} LinesScannedAppend(a: seq<SourceFile>, b: seq<SourceFile>)
    ensures LinesScanned(a + b) == LinesScanned(a) + LinesScanned(b)
  {
    if b == [] {
      assert a + b == a;
    } else {
      var b' := b[..|b| - 1];
      assert (a + b)[..|a + b| - 1] == a + b';
      LinesScannedAppend(a, b');
    }
  }

  /** A file whose lines cannot be counted contributes no findings; the other files are scanned as before. */
  lemma UncountedFileFindings(files: seq<SourceFile>, rules: seq<Rule>, find: RegexFinder, defaults: Match -> VulnerabilityDefaults, i: nat)
    requires i < |files| && files[i].lineCount.None?
    ensures Findings(files, rules, find, defaults) == Findings(files[..i], rules, find, defaults) + Findings(files[i + 1..], rules, find, defaults)
  {
    var f := FileFindings(rules, find, defaults);
    assert f(files[i]) == [];
    FlatMapSkipOne(files, f, i);
  }

  /** A file whose lines cannot be counted adds no lines. */
  lemma UncountedFileLines(files: seq<SourceFile>, i: nat)
    requires i < |files| && files[i].lineCount.None?
    ensures LinesScanned(files) == LinesScanned(files[..i]) + LinesScanned(files[i + 1..])
  {
    var pre, post := files[..i], files[i + 1..];
    assert files == (pre + [files[i]]) + post;
    LinesScannedAppend(pre + [files[i]], post);
    LinesScannedAppend(pre, [files[i]]);
    assert [files[i]][..0] == [];
  }
}
