# SecureCode Guardian core, modelled in Dafny

SecureCode Guardian scans a project's source files with YAML-defined security
rules and keeps a history of scan reports. This project models its core:

- **the rule and report records**: severities and their ranking, rules, patterns,
  quick fixes, scan reports, compliance statuses, and the default scan configuration;
- **the pattern matcher**: running one rule's regex patterns over one file, turning
  every hit into a match with its line, column, five-line snippet and message, and
  turning a match into a finding;
- **the scan engine**: the rule filters (allowlist, blocklist, severity threshold),
  the file selection by include and exclude globs, and the scan loop that runs
  every rule on every file and counts lines;
- **the rule loader and rule engine service**: the ten built-in rules, the custom
  rules of `.securecode/rules`, and the lookups by id, category and severity;
- **the report service**: tracking findings across scans (NEW, PERSISTENT,
  CLOSED), the summary counts, the compliance roll-up per framework, loading and
  listing stored reports newest first, and assembling a new report.

Every Kotlin loop that builds a list or a map is a Dafny `method` with a `while`
loop. Each method is proved equal to a recursive specification function, and the
properties are proved as lemmas about those functions. The engine and service
classes hold no mutable state of their own, so they are modules of functions and
methods, not classes.

The outside world enters as parameters:

- `RegexFinder` stands for the Java regex engine. It gives None when a pattern does
  not compile, and otherwise the hits in order.
- `ProjectTree` stands for the directory walk, `readText` and `Files.lines`.
- `RuleSources` stands for the bundled resources, the custom-rules folder listing
  and the YAML parser.
- `ReportFolder` stands for the reports directory and the JSON parser.
- `defaults: Match -> VulnerabilityDefaults` supplies the fields a finding takes
  from its constructor defaults (status, detection times, fingerprint).
- The clock is a `now` (or a start and an end time) and the report id is a parameter.

The `Vulnerability`, `VulnerabilitySummary` and status classes are not part of
this model. Their records here carry only the fields the core reads or writes.

Modules: `Wrappers` (Option), `Seqs` (filter, flatMap, find, groupingBy/eachCount),
`Strings` (lines, joinToString, lastIndexOf, replace, file name and extension, path
joining), `Rules`, `Reports`, `PatternMatcher`, `Glob` (the glob-to-regex translation,
a small regex fragment and the intended glob reading), `GlobFindings`, `ScanEngine`,
`RuleLoader`, `RuleEngineService`, `VulnerabilityTracking`, `ReportSummary`,
`ComplianceRollup`, `ReportOrder`, `ReportStore`, `ReportService`.

## Model

| member | source | states |
|---|---|---|
| Rules.SeverityRanking | src/main/kotlin/com/securecode/guardian/model/Rule.kt:38-44 | CRITICAL, HIGH, MEDIUM, LOW, INFO have strictly increasing ordinals, and distinct severities have distinct ordinals |
| Rules.SeverityTotalOrder | src/main/kotlin/com/securecode/guardian/model/Rule.kt:38-44 | "At least as severe" (smaller or equal ordinal) is reflexive, antisymmetric, transitive and total, with CRITICAL at the top and INFO at the bottom |
| Rules.NewRule | src/main/kotlin/com/securecode/guardian/model/Rule.kt:8-19 | A rule built from its five required fields has no compliance tags, no patterns and no quick fix, and is enabled and not custom |
| Rules.NewRulePattern | src/main/kotlin/com/securecode/guardian/model/Rule.kt:24-29 | A pattern built from its kind and text has an empty extension filter and no message |
| Rules.NewQuickFix | src/main/kotlin/com/securecode/guardian/model/Rule.kt:82-86 | A quick fix built from its kind and description has no replacement |
| Reports.ComplianceStatus.CompliancePercentage | src/main/kotlin/com/securecode/guardian/model/Report.kt:42-46 | 0 when there are no controls; between 0 and 100 when the passed controls are between 0 and the total; 100 when every control passed |
| Reports.NewScanReport | src/main/kotlin/com/securecode/guardian/model/Report.kt:9-24 | Keeps the given id, findings and summary; the duration defaults to end minus start, the version to "1.0.0", the previous report id to none and the compliance map to empty |
| Reports.DefaultScanConfig | src/main/kotlin/com/securecode/guardian/model/Report.kt:52-59 | No allowlist or blocklist, custom rules under `.securecode/rules`, INFO threshold; includes exactly `**/*.java`, `**/*.kt`, `**/*.py`, `**/*.js`, `**/*.ts`, `**/*.go` and excludes exactly `**/test/**`, `**/build/**`, `**/target/**`, `**/node_modules/**`, `**/.git/**`, in that order |
| Strings.CountChar | src/main/kotlin/com/securecode/guardian/engine/PatternMatcher.kt:103 | The count of a character is at most the length of the text |
| Strings.CountCharZero | src/main/kotlin/com/securecode/guardian/engine/PatternMatcher.kt:103 | A character that does not occur counts 0 |
| Strings.CountCharAppend | src/main/kotlin/com/securecode/guardian/engine/PatternMatcher.kt:103 | Counting adds up over concatenation |
| Strings.LastIndexOf | src/main/kotlin/com/securecode/guardian/engine/PatternMatcher.kt:110 | `lastIndexOf(c, from)`: -1, or an index no later than `from` that holds the character |
| Strings.LastIndexOfIsLast | src/main/kotlin/com/securecode/guardian/engine/PatternMatcher.kt:110 | No index after the result, up to the start of the search, holds the character |
| Strings.LastOf | src/main/kotlin/com/securecode/guardian/engine/PatternMatcher.kt:110 | -1 from the end means the character does not occur; otherwise nothing after the result is that character |
| Strings.Lines | src/main/kotlin/com/securecode/guardian/engine/PatternMatcher.kt:118 | Every text has at least one line |
| Strings.LinesCount | src/main/kotlin/com/securecode/guardian/engine/PatternMatcher.kt:118 | There is one line more than there are '\n' characters |
| Strings.LinesHaveNoNewline | src/main/kotlin/com/securecode/guardian/engine/PatternMatcher.kt:118 | No line holds a '\n' |
| Strings.JoinLinesOfLines | src/main/kotlin/com/securecode/guardian/engine/PatternMatcher.kt:118-122 | Joining a text's lines with "\n" gives the text back |
| Strings.LinesOfJoinLines | src/main/kotlin/com/securecode/guardian/engine/PatternMatcher.kt:118-122 | Splitting joined lines that hold no '\n' gives the same lines back |
| Strings.LinesAppendLast | src/main/kotlin/com/securecode/guardian/engine/PatternMatcher.kt:118 | A text, a '\n' and a line without '\n' split into the text's lines followed by that line |
| Strings.JoinLinesAppend | src/main/kotlin/com/securecode/guardian/engine/PatternMatcher.kt:122 | Joining two non-empty runs of lines puts a single "\n" between their joins |
| Strings.AfterLast | src/main/kotlin/com/securecode/guardian/engine/PatternMatcher.kt:31 | `substringAfterLast`: the part after the last separator holds no separator and is a suffix of the text |
| Strings.FileName | src/main/kotlin/com/securecode/guardian/engine/PatternMatcher.kt:31 | `File.name` holds no '/' and is a suffix of the path |
| Strings.Extension | src/main/kotlin/com/securecode/guardian/engine/PatternMatcher.kt:31 | `File.extension` holds neither '.' nor '/' |
| Strings.ExtensionOf | src/main/kotlin/com/securecode/guardian/engine/PatternMatcher.kt:31-32 | A path ending in '.' and an extension without '.' or '/' has that extension |
| Strings.ReplaceAbsent | src/main/kotlin/com/securecode/guardian/engine/ScanEngine.kt:111-116 | Text in which the searched string cannot start is unchanged |
| Strings.ReplaceFound | src/main/kotlin/com/securecode/guardian/engine/ScanEngine.kt:111-116 | An occurrence at the front is replaced and the search resumes after it |
| Strings.ReplaceSkip | src/main/kotlin/com/securecode/guardian/engine/ScanEngine.kt:111-116 | A front in which the searched string cannot start is copied and the search goes on after it |
| Strings.ReplaceMiss | src/main/kotlin/com/securecode/guardian/engine/ScanEngine.kt:111-116 | A front that is not an occurrence is copied one character at a time |
| Strings.PathJoin | src/main/kotlin/com/securecode/guardian/engine/ScanEngine.kt:28 | The joined path starts with the directory, ends with the child, and puts a '/' right after the directory |
| PatternMatcher.LineNumber | src/main/kotlin/com/securecode/guardian/engine/PatternMatcher.kt:102-104 | The line number is at least 1 |
| PatternMatcher.ColumnNumber | src/main/kotlin/com/securecode/guardian/engine/PatternMatcher.kt:109-112 | The column is at least 1 |
| PatternMatcher.LineNumberInRange | src/main/kotlin/com/securecode/guardian/engine/PatternMatcher.kt:102-104 | The line number never exceeds the number of lines |
| PatternMatcher.Locate | src/main/kotlin/com/securecode/guardian/engine/PatternMatcher.kt:99-112 | Line and column locate the position: the line exists, the column lies within it or just past its end, and the line's start offset plus the column, less one, is the position |
| PatternMatcher.LastLineNumber | src/main/kotlin/com/securecode/guardian/engine/PatternMatcher.kt:102-104 | After the last '\n' the line number is the number of lines |
| PatternMatcher.LastLineColumn | src/main/kotlin/com/securecode/guardian/engine/PatternMatcher.kt:109-112 | After the last '\n' at j the column is position - j |
| PatternMatcher.ExcerptOfMiddle | src/main/kotlin/com/securecode/guardian/engine/PatternMatcher.kt:122 | A run of lines joined occurs verbatim in the join of the run with lines around it |
| PatternMatcher.WindowAround | src/main/kotlin/com/securecode/guardian/engine/PatternMatcher.kt:119-120 | The clamped window has 1 to 5 lines, contains the matched line, and has exactly 5 when two lines exist on each side |
| PatternMatcher.SnippetAround | src/main/kotlin/com/securecode/guardian/engine/PatternMatcher.kt:117-123 | The snippet is 1 to 5 consecutive lines of the content around the matched line (5 when two exist on each side), occurring verbatim in the content |
| PatternMatcher.SnippetHoldsLine | src/main/kotlin/com/securecode/guardian/engine/PatternMatcher.kt:117-123 | The snippet of an existing line is an excerpt of the content and contains that line |
| PatternMatcher.MatchLocatesHit | src/main/kotlin/com/securecode/guardian/engine/PatternMatcher.kt:74-89 | A match's line and column locate the hit's start, its snippet is an excerpt holding the matched line, its text is the hit's, and its message is the pattern's or else the rule's description |
| PatternMatcher.HitMatches | src/main/kotlin/com/securecode/guardian/engine/PatternMatcher.kt:74-90 | One match per hit |
| PatternMatcher.HitMatchesAt | src/main/kotlin/com/securecode/guardian/engine/PatternMatcher.kt:74-90 | Match j is built from hit j, so matches follow hit order |
| PatternMatcher.MatchRegexPattern | src/main/kotlin/com/securecode/guardian/engine/PatternMatcher.kt:62-97 | The loop's matches are none when the pattern does not compile, otherwise one per hit in hit order |
| PatternMatcher.MatchRule | src/main/kotlin/com/securecode/guardian/engine/PatternMatcher.kt:15-57 | The loop's matches are none for a disabled rule or an unreadable file, otherwise each applicable regex pattern's matches in pattern order |
| PatternMatcher.OnlyProductivePatternsMatter | src/main/kotlin/com/securecode/guardian/engine/PatternMatcher.kt:28-54 | Dropping AST, semantic and taint patterns and those whose extension filter rejects the file changes nothing; the later patterns still run |
| PatternMatcher.UncompiledPatternSkipped | src/main/kotlin/com/securecode/guardian/engine/PatternMatcher.kt:28-39 | A pattern that does not compile contributes nothing and the other patterns' matches are unchanged |
| PatternMatcher.PatternsMatchesProvenance | src/main/kotlin/com/securecode/guardian/engine/PatternMatcher.kt:28-54 | Every match is of the given rule and file and carries the message of some productive pattern |
| PatternMatcher.RuleMatchesProvenance | src/main/kotlin/com/securecode/guardian/engine/PatternMatcher.kt:15-57 | A rule with any match is enabled, its file is readable, and the match comes from one of its productive patterns |
| PatternMatcher.ToVulnerability | src/main/kotlin/com/securecode/guardian/engine/PatternMatcher.kt:141-155 | The finding takes the rule's id, name, severity, category, compliance and quick fix and the match's position, snippet, message and file path |
| Glob.ParseRegexText | src/main/kotlin/com/securecode/guardian/engine/ScanEngine.kt:118 | Reading back written atoms gives the same atoms |
| Glob.SafeGlobSupported | src/main/kotlin/com/securecode/guardian/engine/ScanEngine.kt:111-118 | Every glob free of other regex metacharacters translates into a regex of the modelled fragment |
| Glob.StarMatches | src/main/kotlin/com/securecode/guardian/engine/ScanEngine.kt:110 | In the glob reading, `*` absorbs any text without '/' |
| Glob.AnyPathMatches | src/main/kotlin/com/securecode/guardian/engine/ScanEngine.kt:110 | In the glob reading, `**` absorbs any text |
| Glob.DeepSuffixMatches | src/main/kotlin/com/securecode/guardian/engine/ScanEngine.kt:110 | `**/*<suffix>` matches a name ending in the suffix at the top and below any directory |
| Glob.TranslationExactWithoutAnyPath | src/main/kotlin/com/securecode/guardian/engine/ScanEngine.kt:110-119 | For a glob without `**` the regex translation and the glob reading agree on every path: `*` is a run without '/', `?` one character other than '/', every other character itself |
| Glob.NotSlashRunMatches | src/main/kotlin/com/securecode/guardian/engine/ScanEngine.kt:115 | `[^/]*` matches exactly the texts without '/' |
| Glob.AnyPathRegex | src/main/kotlin/com/securecode/guardian/engine/ScanEngine.kt:111-116 | A lone `**` becomes `.[^/]*` |
| Glob.AnyPathParse | src/main/kotlin/com/securecode/guardian/engine/ScanEngine.kt:118 | `.[^/]*` is one any-character followed by a run without '/' |
| Glob.AnyPathTranslation | src/main/kotlin/com/securecode/guardian/engine/ScanEngine.kt:110-119 | As written, `**` matches a path iff it is non-empty, does not start with a line terminator and has no '/' after its first character; read as a glob it matches every path |
| Glob.InsideDirMatches | src/main/kotlin/com/securecode/guardian/engine/ScanEngine.kt:110 | `**/<d>/**` matches everything inside a directory named d at the top and below any directory |
| GlobFindings.DefaultPatterns | src/main/kotlin/com/securecode/guardian/model/Report.kt:53-54 | The first default include glob is `**/*.java` and the first default exclude glob is `**/test/**` |
| GlobFindings.DeepJavaTranslation | src/main/kotlin/com/securecode/guardian/engine/ScanEngine.kt:111-116 | `**/*.java` becomes `..[^/]*\.java`: dots escaped, `**/` and then `**` become `.*`, the `*` step also rewrites the `*` just produced, `?` changes nothing |
| GlobFindings.DeepJavaParse | src/main/kotlin/com/securecode/guardian/engine/ScanEngine.kt:118 | That regex is two any-characters, a run without '/', and `.java` |
| GlobFindings.DeepJavaRegexMisses | src/main/kotlin/com/securecode/guardian/engine/ScanEngine.kt:118 | That regex does not match `src/Main.java` |
| GlobFindings.DefaultPatternsSafe | src/main/kotlin/com/securecode/guardian/model/Report.kt:53-54 | Every default include and exclude glob is free of regex metacharacters other than `*`, `?` and `.` |
| GlobFindings.DefaultIncludeMissesNestedJava | src/main/kotlin/com/securecode/guardian/engine/ScanEngine.kt:110-119 | As written, the default Java glob does not match `src/Main.java` |
| GlobFindings.DefaultIncludeIntended | src/main/kotlin/com/securecode/guardian/model/Report.kt:53 | Read as a glob, the default Java glob matches Java files at every depth |
| GlobFindings.DefaultIncludeSelectsNestedJava | src/main/kotlin/com/securecode/guardian/model/Report.kt:53 | Read as a glob, it matches `src/Main.java` |
| GlobFindings.TestDirTranslation | src/main/kotlin/com/securecode/guardian/engine/ScanEngine.kt:111-116 | `**/test/**` becomes `.[^/]*test/.[^/]*`: no dot to escape, `**/` and then `**` become `.*`, the `*` step rewrites both of those, `?` changes nothing |
| GlobFindings.TestDirParse | src/main/kotlin/com/securecode/guardian/engine/ScanEngine.kt:118 | That regex is an any-character, a run without '/', `test/`, an any-character and a run without '/' |
| GlobFindings.TestDirRegexMisses | src/main/kotlin/com/securecode/guardian/engine/ScanEngine.kt:118 | That regex does not match `src/test/Foo.java` |
| GlobFindings.DefaultExcludeMissesNestedTestDir | src/main/kotlin/com/securecode/guardian/engine/ScanEngine.kt:110-119 | As written, the default test-directory glob does not match `src/test/Foo.java` |
| GlobFindings.DefaultExcludeIntended | src/main/kotlin/com/securecode/guardian/model/Report.kt:54 | Read as a glob, the default test-directory glob matches everything under a `test` directory at every depth |
| GlobFindings.DefaultExcludeSelectsNestedTestDir | src/main/kotlin/com/securecode/guardian/model/Report.kt:54 | Read as a glob, it matches `src/test/Foo.java` |
| ScanEngine.FilterRules | src/main/kotlin/com/securecode/guardian/engine/ScanEngine.kt:29-38 | No more rules than given are kept, and each kept rule is at least as severe as the threshold |
| ScanEngine.FilterRulesMembership | src/main/kotlin/com/securecode/guardian/engine/ScanEngine.kt:30-38 | With a non-empty allowlist a rule is kept iff it is listed and severe enough, whatever the blocklist says; otherwise iff it is not blocklisted and severe enough |
| ScanEngine.FilterRulesKeepsAllByDefault | src/main/kotlin/com/securecode/guardian/engine/ScanEngine.kt:30-38 | With both id lists empty and the INFO threshold every rule is kept, in order |
| ScanEngine.FilesToScan | src/main/kotlin/com/securecode/guardian/engine/ScanEngine.kt:74-105 | Every returned file is a regular file that no exclude glob and some include glob matches |
| ScanEngine.FilesToScanMembership | src/main/kotlin/com/securecode/guardian/engine/ScanEngine.kt:74-105 | A file is returned iff the root is an existing directory, the walk reaches the file and it is selected; an excluded file never is |
| ScanEngine.FindFilesToScan | src/main/kotlin/com/securecode/guardian/engine/ScanEngine.kt:73-105 | The walk loop returns exactly the selected files in walk order, for whichever glob matcher it is given |
| ScanEngine.AsWrittenSelection | src/main/kotlin/com/securecode/guardian/engine/ScanEngine.kt:81-101 | With the matcher as written, a file is selected iff it is regular, no translated exclude glob matches its relative path and some translated include glob does |
| ScanEngine.DefaultConfigSafe | src/main/kotlin/com/securecode/guardian/model/Report.kt:52-59 | The default configuration meets the precondition of `Scan`: all its globs are ones the translation handles |
| ScanEngine.NestedJavaSelection | src/main/kotlin/com/securecode/guardian/engine/ScanEngine.kt:88-119 | With the default Java glob the as-written matcher leaves `src/Main.java` out and the glob reading selects it |
| ScanEngine.NestedJavaScan | src/main/kotlin/com/securecode/guardian/engine/ScanEngine.kt:73-119 | In a project holding only `src/Main.java`, the as-written selection with the default Java glob is empty and the glob reading selects that file |
| ScanEngine.ScanFile | src/main/kotlin/com/securecode/guardian/engine/ScanEngine.kt:51-54 | One file's findings are each rule's converted matches, in rule order |
| ScanEngine.ScanFiles | src/main/kotlin/com/securecode/guardian/engine/ScanEngine.kt:44-58 | The findings are concatenated over files, then rules; lines are summed over the files whose count succeeds |
| ScanEngine.Scan | src/main/kotlin/com/securecode/guardian/engine/ScanEngine.kt:21-69 | The result holds the findings of the filtered rules over the files the as-written glob matcher selects, the number of filtered rules and of selected files, the lines counted, and end minus start |
| ScanEngine.FileFindingsProvenance | src/main/kotlin/com/securecode/guardian/engine/ScanEngine.kt:51-54 | Every finding of one file names that file and comes from an enabled rule whose id, severity and category it carries |
| ScanEngine.FindingsProvenance | src/main/kotlin/com/securecode/guardian/engine/ScanEngine.kt:47-58 | Every finding names a file whose lines could be counted and carries an enabled rule's id, severity and category |
| ScanEngine.ScanFindingsProvenance | src/main/kotlin/com/securecode/guardian/engine/ScanEngine.kt:21-69 | Every finding of a scan, under any glob matcher, meets the severity threshold, comes from a loaded rule that passed the filters, and names a selected file whose lines could be counted |
| ScanEngine.LinesScannedAppend | src/main/kotlin/com/securecode/guardian/engine/ScanEngine.kt:45-49 | The line total adds up over concatenation |
| ScanEngine.UncountedFileFindings | src/main/kotlin/com/securecode/guardian/engine/ScanEngine.kt:48-57 | A file whose line count fails contributes no findings; the other files are scanned as before |
| ScanEngine.UncountedFileLines | src/main/kotlin/com/securecode/guardian/engine/ScanEngine.kt:48-57 | A file whose line count fails adds no lines |
| RuleLoader.BuiltInRule | src/main/kotlin/com/securecode/guardian/engine/RuleLoader.kt:41-49 | A catalogue entry gives one rule exactly when its resource exists and parses, and nothing otherwise |
| RuleLoader.LoadBuiltInRules | src/main/kotlin/com/securecode/guardian/engine/RuleLoader.kt:21-56 | The loop returns the parsed rules of the catalogue entries, in catalogue order |
| RuleLoader.BuiltInRulesAtMostTen | src/main/kotlin/com/securecode/guardian/engine/RuleLoader.kt:27-38 | There are at most ten built-in rules |
| RuleLoader.BuiltInRulesAllLoaded | src/main/kotlin/com/securecode/guardian/engine/RuleLoader.kt:27-50 | When every entry loads, there are ten rules and rule i is the one parsed from entry i |
| RuleLoader.BuiltInRulesSkipFailure | src/main/kotlin/com/securecode/guardian/engine/RuleLoader.kt:41-48 | An absent or unparsable entry is skipped and the others load as before |
| RuleLoader.BuiltInRulesProvenance | src/main/kotlin/com/securecode/guardian/engine/RuleLoader.kt:40-50 | Every built-in rule is what some catalogue entry parsed to |
| RuleLoader.CustomRule | src/main/kotlin/com/securecode/guardian/engine/RuleLoader.kt:71-76 | A rule file gives its rule with `custom` set, or nothing when it does not parse |
| RuleLoader.LoadCustomRules | src/main/kotlin/com/securecode/guardian/engine/RuleLoader.kt:61-80 | The loop returns nothing for a folder that cannot be listed, else the parsed `.yaml`/`.yml` files' rules marked custom, in listing order |
| RuleLoader.LoadedCustomsOrigin | src/main/kotlin/com/securecode/guardian/engine/RuleLoader.kt:70-77 | Every loaded custom rule is some file's parsed rule marked custom |
| RuleLoader.CustomRulesProvenance | src/main/kotlin/com/securecode/guardian/engine/RuleLoader.kt:61-80 | Every custom rule is marked custom and comes from a listed `.yaml` or `.yml` file that parsed |
| RuleLoader.CustomRulesSkipFailure | src/main/kotlin/com/securecode/guardian/engine/RuleLoader.kt:71-76 | A rule file that does not parse is skipped and the others load as before |
| RuleLoader.AllRules | src/main/kotlin/com/securecode/guardian/engine/RuleLoader.kt:99-112 | Every returned rule is enabled |
| RuleLoader.LoadAllRules | src/main/kotlin/com/securecode/guardian/engine/RuleLoader.kt:99-112 | The method returns the enabled built-in and custom rules |
| RuleLoader.AllRulesOrder | src/main/kotlin/com/securecode/guardian/engine/RuleLoader.kt:100-111 | Enabled built-in rules come first, then enabled custom rules; without a custom path only built-in rules |
| RuleLoader.AllRulesMembership | src/main/kotlin/com/securecode/guardian/engine/RuleLoader.kt:99-112 | A rule is returned iff it is enabled and is a built-in rule or a rule of the given folder |
| RuleEngineService.CustomRulesPath | src/main/kotlin/com/securecode/guardian/service/RuleEngineService.kt:22-26 | A custom folder exists exactly when the project has a base path |
| RuleEngineService.GetAllRules | src/main/kotlin/com/securecode/guardian/service/RuleEngineService.kt:20-29 | Every returned rule is enabled |
| RuleEngineService.GetAllRulesWithoutBasePath | src/main/kotlin/com/securecode/guardian/service/RuleEngineService.kt:22-28 | Without a base path only the enabled built-in rules are returned |
| RuleEngineService.GetAllRulesWithBasePath | src/main/kotlin/com/securecode/guardian/service/RuleEngineService.kt:20-29 | With a base path the enabled built-in rules come first, then the enabled rules of `.securecode/rules` under it |
| RuleEngineService.GetBuiltInRules | src/main/kotlin/com/securecode/guardian/service/RuleEngineService.kt:34-36 | At most ten built-in rules |
| RuleEngineService.GetCustomRules | src/main/kotlin/com/securecode/guardian/service/RuleEngineService.kt:41-45 | No custom rules without a base path |
| RuleEngineService.GetCustomRulesAreCustom | src/main/kotlin/com/securecode/guardian/service/RuleEngineService.kt:41-45 | Every returned rule is marked custom |
| RuleEngineService.GetRuleById | src/main/kotlin/com/securecode/guardian/service/RuleEngineService.kt:50-52 | None iff no rule has the id; otherwise the first rule that has it |
| RuleEngineService.GetRulesByCategory | src/main/kotlin/com/securecode/guardian/service/RuleEngineService.kt:57-59 | Every returned rule has the category |
| RuleEngineService.GetRulesBySeverity | src/main/kotlin/com/securecode/guardian/service/RuleEngineService.kt:64-66 | Every returned rule has the severity |
| RuleEngineService.RulesByCategoryExact | src/main/kotlin/com/securecode/guardian/service/RuleEngineService.kt:57-59 | Each rule of the category occurs as often as among all rules; others do not occur |
| RuleEngineService.RulesBySeverityExact | src/main/kotlin/com/securecode/guardian/service/RuleEngineService.kt:64-66 | Each rule of the severity occurs as often as among all rules; others do not occur |
| RuleEngineService.RulesByCategoryOrder | src/main/kotlin/com/securecode/guardian/service/RuleEngineService.kt:57-59 | A category's rules keep loading order: enabled built-in ones first, then enabled custom ones |
| VulnerabilityTracking.AssociateBy | src/main/kotlin/com/securecode/guardian/service/ReportService.kt:76 | Every key maps to a finding with that fingerprint |
| VulnerabilityTracking.AssociateByKeys | src/main/kotlin/com/securecode/guardian/service/ReportService.kt:76 | A fingerprint is a key iff some previous finding has it |
| VulnerabilityTracking.AssociateByLast | src/main/kotlin/com/securecode/guardian/service/ReportService.kt:76 | A key maps to the last previous finding with that fingerprint |
| VulnerabilityTracking.TrackCurrent | src/main/kotlin/com/securecode/guardian/service/ReportService.kt:82-102 | One updated finding per current finding |
| VulnerabilityTracking.CloseMissing | src/main/kotlin/com/securecode/guardian/service/ReportService.kt:105-114 | At most one closed finding per previous finding |
| VulnerabilityTracking.TrackVulnerabilityStatus | src/main/kotlin/com/securecode/guardian/service/ReportService.kt:72-117 | The two loops return the current findings updated, then the previous findings whose fingerprint is gone, closed |
| VulnerabilityTracking.MarkedNew | src/main/kotlin/com/securecode/guardian/service/ReportService.kt:44 | Every finding becomes NEW and nothing else changes |
| VulnerabilityTracking.CloseMissingExact | src/main/kotlin/com/securecode/guardian/service/ReportService.kt:105-114 | The closed part is exactly the previous findings whose fingerprint is not current, in previous order, with only status and last detection changed |
| VulnerabilityTracking.TrackedLength | src/main/kotlin/com/securecode/guardian/service/ReportService.kt:77-114 | The output has one entry per current finding plus one per previous finding whose fingerprint is gone |
| VulnerabilityTracking.TrackedCurrent | src/main/kotlin/com/securecode/guardian/service/ReportService.kt:83-98 | Current finding i is PERSISTENT iff some previous finding has its fingerprint, then with the first detection of the last such; otherwise NEW with first detection now; last detection is now and nothing else changes |
| VulnerabilityTracking.TrackCurrentAt | src/main/kotlin/com/securecode/guardian/service/ReportService.kt:82-102 | Entry i of the first loop's output is current finding i updated |
| VulnerabilityTracking.TrackedClosed | src/main/kotlin/com/securecode/guardian/service/ReportService.kt:105-114 | Entry |current| + i is the i-th previous finding that is gone, CLOSED at now |
| VulnerabilityTracking.TrackedNeverFixed | src/main/kotlin/com/securecode/guardian/service/ReportService.kt:88-109 | Tracking yields only NEW, PERSISTENT and CLOSED |
| Seqs.CountBy | src/main/kotlin/com/securecode/guardian/service/ReportService.kt:132-134 | `groupingBy { key }.eachCount()`: a key is present iff some element has it, and maps to their number |
| ReportSummary.CalculateSummary | src/main/kotlin/com/securecode/guardian/service/ReportService.kt:122-136 | The severity and category tallies count the active findings and the status tally counts all of them; total is at most the number of findings |
| ReportSummary.StatusCountsSum | src/main/kotlin/com/securecode/guardian/service/ReportService.kt:129-134 | The four status counts add up to the number of findings |
| ReportSummary.ActiveCount | src/main/kotlin/com/securecode/guardian/service/ReportService.kt:123-128 | Active plus CLOSED plus FIXED findings make all findings |
| ReportSummary.SeverityCountsSum | src/main/kotlin/com/securecode/guardian/service/ReportService.kt:132 | The five severity counts add up to the number of findings |
| ReportSummary.SummaryConsistent | src/main/kotlin/com/securecode/guardian/service/ReportService.kt:122-136 | The new, persistent and closed counts agree with the status tally, which sums to the number of findings; the severity tally sums to total; total is all findings less CLOSED and FIXED ones |
| ComplianceRollup.AddTagged | src/main/kotlin/com/securecode/guardian/service/ReportService.kt:154-156 | The finding is appended to its frameworks' lists, once per tag, and no list is empty |
| ComplianceRollup.GroupByFramework | src/main/kotlin/com/securecode/guardian/service/ReportService.kt:146-157 | Each framework's list is its violations: the active findings, once per tag of that framework, in finding order |
| ComplianceRollup.CalculateComplianceStatus | src/main/kotlin/com/securecode/guardian/service/ReportService.kt:141-176 | The loops return the roll-up: one status per framework some active finding is tagged with |
| ComplianceRollup.ViolationsNonEmpty | src/main/kotlin/com/securecode/guardian/service/ReportService.kt:146-160 | A framework has violations iff some active finding is tagged with it |
| ComplianceRollup.TagViolationsNonEmpty | src/main/kotlin/com/securecode/guardian/service/ReportService.kt:154-156 | A finding adds to a framework iff one of its tags names it |
| ComplianceRollup.ViolationsAreTagged | src/main/kotlin/com/securecode/guardian/service/ReportService.kt:149-157 | Every violation is an active finding of the list tagged with the framework |
| ComplianceRollup.TagViolationsOnly | src/main/kotlin/com/securecode/guardian/service/ReportService.kt:154-156 | A finding adds only itself |
| ComplianceRollup.ViolationsCount | src/main/kotlin/com/securecode/guardian/service/ReportService.kt:149-157 | An active finding occurs in a framework's violations once per matching tag per occurrence; an inactive one never |
| ComplianceRollup.TagViolationsCount | src/main/kotlin/com/securecode/guardian/service/ReportService.kt:154-156 | A finding is added once per tag of the framework |
| ComplianceRollup.ControlsNonEmpty | src/main/kotlin/com/securecode/guardian/service/ReportService.kt:160-172 | A framework with violations has at least one violated control |
| ComplianceRollup.StatusForFailed | src/main/kotlin/com/securecode/guardian/service/ReportService.kt:166-172 | A status counts every control as failed and none as passed, so its percentage is 0 |
| ComplianceRollup.ComplianceReportStatus | src/main/kotlin/com/securecode/guardian/service/ReportService.kt:160-173 | Every framework of the roll-up has at least one control |
| ReportOrder.InsertPos | src/main/kotlin/com/securecode/guardian/service/ReportService.kt:264 | The insertion point comes after every report that ended no earlier and before one that ended earlier |
| ReportOrder.SortByEndDescending | src/main/kotlin/com/securecode/guardian/service/ReportService.kt:264 | Sorting keeps the number of reports |
| ReportOrder.SortByEndPermutes | src/main/kotlin/com/securecode/guardian/service/ReportService.kt:264 | Sorting is a permutation |
| ReportOrder.SortByEndNewestFirst | src/main/kotlin/com/securecode/guardian/service/ReportService.kt:264 | Sorted reports are ordered by end time, newest first |
| ReportOrder.SortByEndStable | src/main/kotlin/com/securecode/guardian/service/ReportService.kt:264 | Reports that ended at the same time keep their order |
| ReportStore.ParsedReport | src/main/kotlin/com/securecode/guardian/service/ReportService.kt:256-261 | A file gives one report iff it parses |
| ReportStore.LoadReport | src/main/kotlin/com/securecode/guardian/service/ReportService.kt:218-240 | The loop returns the first parsed report of the filtered listing with the id, or none |
| ReportStore.FirstWithId | src/main/kotlin/com/securecode/guardian/service/ReportService.kt:228-237 | The early return yields the first report with the id |
| ReportStore.GetAllReports | src/main/kotlin/com/securecode/guardian/service/ReportService.kt:245-265 | The method returns the parsed reports of the filtered listing, newest first |
| ReportStore.ParsedReportsMembership | src/main/kotlin/com/securecode/guardian/service/ReportService.kt:253-262 | A report is read iff some file parses to it |
| ReportStore.AllReportsMembership | src/main/kotlin/com/securecode/guardian/service/ReportService.kt:245-265 | A report is listed iff some `.json` file other than `latest-report.json` in the listed directory parses to it |
| ReportStore.AllReportsOrder | src/main/kotlin/com/securecode/guardian/service/ReportService.kt:264 | Reports are newest first, and those that ended together keep listing order |
| ReportStore.LoadedReportListed | src/main/kotlin/com/securecode/guardian/service/ReportService.kt:218-265 | `loadReport` finds nothing iff no listed report has the id; what it finds is listed and has the id |
| Seqs.Find | src/main/kotlin/com/securecode/guardian/service/RuleEngineService.kt:51 | `find`: none iff no element satisfies the predicate, otherwise the first that does |
| ReportService.TrackFindings | src/main/kotlin/com/securecode/guardian/service/ReportService.kt:40-45 | Tracked against the previous report, or all marked NEW without one |
| ReportService.GenerateReport | src/main/kotlin/com/securecode/guardian/service/ReportService.kt:30-67 | The report holds the tracked findings, their summary and roll-up, the scan's counts, start = now - duration, end = now, and the previous report's id |
| ReportService.GeneratedNeverFixed | src/main/kotlin/com/securecode/guardian/service/ReportService.kt:30-67 | No generated finding is FIXED, so the summary counts no FIXED finding and total is NEW plus PERSISTENT |
| ReportService.GeneratedFirstScan | src/main/kotlin/com/securecode/guardian/service/ReportService.kt:40-64 | Without a previous report every finding is recorded in order as NEW and otherwise unchanged, and there is no previous id |
| ReportService.GeneratedFollowUp | src/main/kotlin/com/securecode/guardian/service/ReportService.kt:40-64 | With a previous report the report links to it, and the scan's findings come first, each PERSISTENT iff the previous report has its fingerprint |
| ReportService.GeneratedCompliance | src/main/kotlin/com/securecode/guardian/service/ReportService.kt:51 | Every framework in a generated report has at least one control, none passed, and 0 percent compliance |

## Left out

- Kotlin's `lines()` also splits at `\r` and `\r\n`; the model splits only at `\n`, so snippets of files with Windows line endings are not modelled.
- The Java regex engine is an oracle (`RegexFinder`); only the regex fragment that the glob translation produces is modelled, in `Glob`.
- File I/O is an oracle: the directory walk, `readText`, `Files.lines`, resource lookup, `listFiles` and `exists` are given by `ProjectTree`, `RuleSources` and `ReportFolder`. In Kotlin an exception from `Files.walk` escapes `scan`; the model's walk never fails.
- Glob.MatchesGlobPattern: defined only for globs without regex metacharacters other than `*`, `?` and `.` (`Glob.SafeGlob`), whose translation lies in the modelled regex fragment (Glob.SafeGlobSupported); other regex syntax inside a glob is not modelled.
- ScanEngine.Scan: requires every include and exclude glob to be a `Glob.SafeGlob`, because the Java regex engine is modelled only on the fragment those globs translate into; the default configuration meets it (ScanEngine.DefaultConfigSafe).
- PatternMatcher.LineNumber and PatternMatcher.ColumnNumber: Kotlin string positions count UTF-16 code units, while the model's strings are sequences of Unicode scalar values; after a character outside the Basic Multilingual Plane the model's positions and columns are one smaller per such character than Kotlin's. The `RegexFinder` oracle is taken to report positions in the model's units.
- YAML and JSON parsing are given as parse outcomes per file; the formats themselves are not modelled.
- The clock is a `now` parameter (a start and an end time for a scan), and the random report id is a parameter.
- `saveReport` (src/main/kotlin/com/securecode/guardian/service/ReportService.kt:181-195) and `loadLatestReport` (src/main/kotlin/com/securecode/guardian/service/ReportService.kt:200-213) only write JSON files and read one back; they are not modelled.
- Int and Long overflow are not modelled (line counts, positions and control counts are unbounded integers).
- Strings.PathJoin: `Paths.get` is modelled as joining with '/' without normalisation; platform separators and absolute child paths are not modelled.
- Strings.Extension: `File.extension` is modelled on '/'-separated paths only.
- Reports.ComplianceStatus.CompliancePercentage: computed as a `real`, not a `Double`; rounding is not modelled.
- ComplianceRollup.CalculateComplianceStatus: the order in which Kotlin iterates the framework map is not modelled; the result is a map, so that order does not change it.
- The `println` logging of the engine and services is left out.
- Exceptions are modelled only where the source catches them: an unreadable file, a line count that fails, a pattern that does not compile, a rule file or report that does not parse.
- ScanEngine.FilesToScan: the walk order of `ProjectTree` is taken as given; the order of `File.walk()` is not modelled.
- VulnerabilityTracking: the fingerprint formula is not modelled, only fingerprint equality.

## Findings

| source | as written | input that shows it | evidently intended | confidence | as-written member | corrected member |
|---|---|---|---|---|---|---|
| src/main/kotlin/com/securecode/guardian/engine/ScanEngine.kt:110-119 | `matchesGlobPattern` rewrites `**/` to `.*`, then `**` to `.*`, then every `*` to `[^/]*`. That last step also rewrites the `*` of the `.*` just produced, so `**/*.java` becomes `..[^/]*\.java` | `src/Main.java` against the default include glob `**/*.java` | `**/*.java` selects Java files at every depth | not executed | GlobFindings.DefaultIncludeMissesNestedJava, ScanEngine.NestedJavaSelection, ScanEngine.NestedJavaScan (ScanEngine.Scan selects with the matcher as written) | GlobFindings.DefaultIncludeSelectsNestedJava, GlobFindings.DefaultIncludeIntended, ScanEngine.NestedJavaScan (Glob.IntendedMatch given to ScanEngine.FindFilesToScan and ScanEngine.ScanOutcome) |
| src/main/kotlin/com/securecode/guardian/engine/ScanEngine.kt:110-119 | the same rewriting turns `**/test/**` into `.[^/]*test/.[^/]*`, in which a '/' can only be the first character before `test/` and the first after it | `src/test/Foo.java` against the default exclude glob `**/test/**` | `**/test/**` excludes everything under a `test` directory at every depth | not executed | GlobFindings.DefaultExcludeMissesNestedTestDir | GlobFindings.DefaultExcludeSelectsNestedTestDir, GlobFindings.DefaultExcludeIntended (Glob.IntendedMatch, usable in place of the matcher as written by ScanEngine.FindFilesToScan) |
