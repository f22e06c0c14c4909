/**
 * Applying one rule's patterns to one file: extension filtering, dispatch on
 * the pattern kind, regex matches located by 1-based line and column with a
 * context snippet, and conversion of a match into a finding.
 *
 * The regex engine is an oracle `find(pattern, content)`: `None` when the
 * pattern does not compile, otherwise the successive non-overlapping hits.
 */
module PatternMatcher {
  import opened Wrappers
  import opened Rules
  import opened Reports
  import opened Strings
  import opened Seqs

  /** A file as the scan sees it: its path, its path relative to the project root, and what reading it yields. */
  datatype SourceFile = SourceFile(
    path: string,
    relativePath: string,
    regular: bool,
    text: Option<string>,       // `readText()`; None when reading fails
    lineCount: Option<nat>)     // `Files.lines(...).count()`; None when counting fails

  /** One regex hit: where it starts in the content and the text it matched. */
  datatype Hit = Hit(start: nat, text: string)


  /** Every hit starts inside the content (the engine's positions are offsets into it). */
  predicate StartsWithin(hits: seq<Hit>, content: string) {
    forall i :: 0 <= i < |hits| ==> hits[i].start <= |content|
  }

  /** The engine reports positions inside the text it searched. */
  ghost predicate FinderSound(find: (string, string) -> Option<seq<Hit>>) {
    forall pattern, content :: find(pattern, content).Some? ==> StartsWithin(find(pattern, content).value, content)
  }

  /**
   * The regex engine: `find(pattern, content)` is None when the pattern does
   * not compile, otherwise its successive non-overlapping hits in order.
   */
  type RegexFinder = f: (string, string) -> Option<seq<Hit>> | FinderSound(f)
    witness (pattern: string, content: string) => None

  datatype Match = Match(
    rule: Rule,
    file: SourceFile,
    lineNumber: int,
    columnNumber: int,
    matchedText: string,
    codeSnippet: string,
    message: string)

  /** Lines of context shown before and after the matched line. */
  const SnippetContext: nat := 2

  /** One more than the number of '\n' strictly before `position`: a line of the content. */
  function LineNumber(content: string, position: nat): (line: int)
    requires position <= |content|
    ensures line >= 1
  {
    CountChar(content[..position], '\n') + 1
  }

  /** The distance from the last '\n' before `position` (or from just before the start). */
  function ColumnNumber(content: string, position: nat): (column: int)
    ensures column >= 1
  {
    position - LastIndexOf(content, '\n', position - 1)
  }

  /** The line number names a line of the content. */
  lemma LineNumberInRange(content: string, position: nat)
    requires position <= |content|
    ensures LineNumber(content, position) <= |Lines(content)|
  {
    CountCharAppend(content[..position], content[position..], '\n');
    assert content == content[..position] + content[position..];
    LinesCount(content);
  }

  /** Where a position lies in the content: its line, its column, and that line's text. */
  predicate Located(lines: seq<string>, line: int, column: int, position: int) {
    && 1 <= line <= |lines|
    && 1 <= column <= |lines[line - 1]| + 1
    && LineOffset(lines, line - 1) + column - 1 == position
  }

  /**
   * Line and column locate the position: the line exists, the column lies
   * within it (or just past its end), and the offset at which the line starts
   * plus the column, less one, is the position again.
   */
  lemma {:induction false} Locate(content: string, position: nat)
    requires position <= |content|
    ensures Located(Lines(content), LineNumber(content, position), ColumnNumber(content, position), position)
    decreases |content|
  {
    var j := LastIndexOf(content, '\n', |content| - 1);
    LastOf(content, '\n');
    if j < 0 {
      LocateSingleLine(content, position);
    } else if position <= j {
      Locate(content[..j], position);
      LocateBeforeLastBreak(content, j, position);
    } else {
      LocateOnLastLine(content, j, position);
    }
  }

  /** Text without '\n' is one line, and the column is the position plus one. */
  lemma LocateSingleLine(content: string, position: nat)
    requires position <= |content| && '\n' !in content
    ensures Located(Lines(content), LineNumber(content, position), ColumnNumber(content, position), position)
  {
    assert LastIndexOf(content, '\n', |content| - 1) < 0;
    assert LastIndexOf(content, '\n', position - 1) < 0;
    assert '\n' !in content[..position];
    CountCharZero(content[..position], '\n');
  }

  /** Before the last '\n', the position is located as in the text up to that '\n'. */
  lemma LocateBeforeLastBreak(content: string, j: nat, position: nat)
    requires j == LastIndexOf(content, '\n', |content| - 1) && position <= j
    requires Located(Lines(content[..j]), LineNumber(content[..j], position), ColumnNumber(content[..j], position), position)
    ensures Located(Lines(content), LineNumber(content, position), ColumnNumber(content, position), position)
  {
    assert LineNumber(content[..j], position) == LineNumber(content, position) by {
      assert content[..j][..position] == content[..position];
    }
    assert ColumnNumber(content[..j], position) == ColumnNumber(content, position) by {
      LastIndexOfPrefix(content, '\n', j, position - 1);
    }
    LocatedInLonger(Lines(content[..j]), content[j + 1..], LineNumber(content, position), ColumnNumber(content, position), position);
  }

  /** A location among some lines stays the same when another line follows them. */
  lemma LocatedInLonger(lines: seq<string>, last: string, line: int, column: int, position: int)
    requires Located(lines, line, column, position)
    ensures Located(lines + [last], line, column, position)
  {
    assert (lines + [last])[line - 1] == lines[line - 1];
    LineOffsetPrefix(lines, [last], line - 1);
  }

  /** After the last '\n', the position is on the last line, `position - j` columns in. */
  lemma LocateOnLastLine(content: string, j: nat, position: nat)
    requires j == LastIndexOf(content, '\n', |content| - 1) && j < position <= |content|
    requires '\n' !in content[j + 1..]
    ensures Located(Lines(content), LineNumber(content, position), ColumnNumber(content, position), position)
  {
    var front := Lines(content[..j]);
    var last := content[j + 1..];
    assert Lines(content) == front + [last];
    LastLineNumber(content, j, position);
    LastLineColumn(content, j, position);
    LastLineOffset(content, j);
    LocatedLast(front, last, ColumnNumber(content, position), position);
  }

  /** The last of some lines, starting at `LineOffset(lines, |lines|)`, locates a position `column - 1` into it. */
  lemma LocatedLast(front: seq<string>, last: string, column: int, position: int)
    requires 1 <= column <= |last| + 1
    requires LineOffset(front + [last], |front|) + column - 1 == position
    ensures Located(front + [last], |front| + 1, column, position)
  {
  }

  /** Past the last '\n' the line number is the number of lines. */
  lemma LastLineNumber(content: string, j: nat, position: nat)
    requires j < position <= |content| && content[j] == '\n'
    requires '\n' !in content[j + 1..]
    ensures LineNumber(content, position) == |Lines(content[..j])| + 1
  {
    var after := content[j + 1..position];
    PrefixAround(content, j, position);
    CountCharAppend(content[..j] + [content[j]], after, '\n');
    CountCharAppend(content[..j], [content[j]], '\n');
    assert CountChar([content[j]], '\n') == 1 by { assert [content[j]][..0] == []; }
    assert '\n' !in after by { assert after == content[j + 1..][..position - j - 1]; }
    CountCharZero(after, '\n');
    LinesCount(content[..j]);
  }

  /** Past the last '\n' at `j` the column counts from `j`. */
  lemma LastLineColumn(content: string, j: nat, position: nat)
    requires j < position <= |content| && content[j] == '\n'
    requires '\n' !in content[j + 1..]
    ensures ColumnNumber(content, position) == position - j
    ensures position - j <= |content[j + 1..]| + 1
  {
    forall m | j < m <= position - 1
      ensures content[m] != '\n'
    {
      assert content[m] == content[j + 1..][m - j - 1];
    }
    LastIndexOfAt(content, '\n', position - 1, j);
  }

  /** The line after the last '\n' at `j` starts at `j + 1`. */
  lemma LastLineOffset(content: string, j: nat)
    requires j < |content|
    ensures var front := Lines(content[..j]);
            LineOffset(front + [content[j + 1..]], |front|) == j + 1
  {
    var front := Lines(content[..j]);
    LineOffsetPrefix(front, [content[j + 1..]], |front|);
    LineOffsetEnd(front);
    JoinLinesOfLines(content[..j]);
  }

  function Max(a: int, b: int): int { if a < b then b else a }
  function Min(a: int, b: int): int { if a < b then a else b }

  /**
   * The matched line with up to two lines of context on each side, clamped
   * at the start and end of the content, joined with "\n". The sublist
   * exists (no exception) exactly when the bounds below hold.
   */
  function CodeSnippet(content: string, line: int): string
    requires 0 <= line + SnippetContext && line <= |Lines(content)| + SnippetContext + 1
  {
    var lines := Lines(content);
    var lo := Max(0, line - SnippetContext - 1);
    var hi := Min(|lines|, line + SnippetContext);
    JoinLines(lines[lo..hi])
  }

  /** `snippet` occurs verbatim somewhere in `content`. */
  predicate IsExcerpt(snippet: string, content: string) {
    exists k :: 0 <= k <= |content| && snippet <= content[k..]
  }

  /** A run of lines joined is an excerpt of the same run with more lines around it, joined. */
  lemma ExcerptOfMiddle(pre: seq<string>, mid: seq<string>, post: seq<string>)
    requires |mid| >= 1
    ensures IsExcerpt(JoinLines(mid), JoinLines(pre + mid + post))
  {
    var whole := JoinLines(pre + mid + post);
    var m := JoinLines(mid);
    if pre == [] {
      assert pre + mid + post == mid + post;
      if post != [] { JoinLinesAppend(mid, post); } else { assert mid + post == mid; }
      assert m <= whole[0..];
    } else {
      var front := JoinLines(pre);
      var k := |front| + 1;
      if post == [] {
        assert pre + mid + post == pre + mid;
        JoinLinesAppend(pre, mid);
        assert whole == front + "\n" + m;
      } else {
        JoinLinesAppend(mid, post);
        JoinLinesAppend(pre, mid + post);
        assert pre + mid + post == pre + (mid + post);
        assert whole == front + "\n" + (m + "\n" + JoinLines(post));
      }
      assert whole[k..][..|m|] == m;
      assert m <= whole[k..];
    }
  }

  /**
   * The snippet of a line is a verbatim excerpt of the content made of
   * consecutive lines around that line: at most five, the matched line among
   * them, and exactly five when two lines exist on each side.
   */
  lemma SnippetAround(content: string, line: int)
    requires 1 <= line <= |Lines(content)|
    ensures var snippet := CodeSnippet(content, line);
            var window := Lines(snippet);
            && 1 <= |window| <= 2 * SnippetContext + 1
            && (exists lo :: 0 <= lo <= line - 1 < lo + |window| <= |Lines(content)| && window <= Lines(content)[lo..])
            && (line > SnippetContext && line + SnippetContext <= |Lines(content)| ==> |window| == 2 * SnippetContext + 1)
            && IsExcerpt(snippet, content)
  {
    var lines := Lines(content);
    var lo := Max(0, line - SnippetContext - 1);
    var hi := Min(|lines|, line + SnippetContext);
    var mid := lines[lo..hi];
    var snippet := CodeSnippet(content, line);
    assert snippet == JoinLines(mid);
    assert Lines(snippet) == mid by {
      LinesHaveNoNewline(content);
      LinesOfJoinLines(mid);
    }
    WindowAround(lines, line, lo, hi, mid);
    assert IsExcerpt(snippet, content) by {
      JoinLinesOfLines(content);
      ThreeParts(lines, lo, hi);
      ExcerptOfMiddle(lines[..lo], mid, lines[hi..]);
    }
  }

  lemma ThreeParts<T>(s: seq<T>, lo: nat, hi: nat)
    requires lo <= hi <= |s|
    ensures s == s[..lo] + s[lo..hi] + s[hi..]
  {
  }

  /** The clamped window of lines around `line`: its size, its position and the line it contains. */
  lemma WindowAround(lines: seq<string>, line: int, lo: int, hi: int, window: seq<string>)
    requires 1 <= line <= |lines|
    requires lo == Max(0, line - SnippetContext - 1) && hi == Min(|lines|, line + SnippetContext)
    requires window == lines[lo..hi]
    ensures 1 <= |window| <= 2 * SnippetContext + 1
    ensures exists lo :: 0 <= lo <= line - 1 < lo + |window| <= |lines| && window <= lines[lo..]
    ensures line > SnippetContext && line + SnippetContext <= |lines| ==> |window| == 2 * SnippetContext + 1
  {
    assert window <= lines[lo..];
  }

  /** The message shown for a match: the pattern's own message, else the rule's description. */
  function MessageFor(rule: Rule, pattern: RulePattern): string {
    pattern.message.GetOr(rule.description)
  }

  /** The match built for one regex hit. */
  function MakeMatch(rule: Rule, pattern: RulePattern, file: SourceFile, content: string, hit: Hit): Match
    requires hit.start <= |content|
  {
    var line := LineNumber(content, hit.start);
    LineNumberInRange(content, hit.start);
    Match(rule, file, line, ColumnNumber(content, hit.start), hit.text, CodeSnippet(content, line), MessageFor(rule, pattern))
  }

  /**
   * A match records where its hit is: its line and column locate the hit's
   * start in the content, its snippet is an excerpt around that line, and
   * its message is the pattern's own or else the rule's description.
   */
  lemma MatchLocatesHit(rule: Rule, pattern: RulePattern, file: SourceFile, content: string, hit: Hit)
    requires hit.start <= |content|
    ensures var m := MakeMatch(rule, pattern, file, content, hit);
            && Located(Lines(content), m.lineNumber, m.columnNumber, hit.start)
            && IsExcerpt(m.codeSnippet, content)
            && ShowsLine(m.codeSnippet, Lines(content), m.lineNumber)
            && m.matchedText == hit.text
            && m.message == (if pattern.message.Some? then pattern.message.value else rule.description)
  {
    var line := LineNumber(content, hit.start);
    LineNumberInRange(content, hit.start);
    var column := ColumnNumber(content, hit.start);
    var snippet := CodeSnippet(content, line);
    var m := MakeMatch(rule, pattern, file, content, hit);
    assert m == Match(rule, file, line, column, hit.text, snippet, MessageFor(rule, pattern));
    assert m.lineNumber == line && m.columnNumber == column && m.codeSnippet == snippet;
    Locate(content, hit.start);
    SnippetHoldsLine(content, line);
  }

  /** Line `line` (counted from 1) of `lines` is one of the snippet's lines. */
  predicate ShowsLine(snippet: string, lines: seq<string>, line: int) {
    1 <= line <= |lines| && lines[line - 1] in Lines(snippet)
  }

  /** The snippet of an existing line is an excerpt of the content and holds that line. */
  lemma SnippetHoldsLine(content: string, line: int)
    requires 1 <= line <= |Lines(content)|
    ensures IsExcerpt(CodeSnippet(content, line), content)
    ensures ShowsLine(CodeSnippet(content, line), Lines(content), line)
  {
    SnippetAround(content, line);
    var window := Lines(CodeSnippet(content, line));
    var lo :| 0 <= lo <= line - 1 < lo + |window| <= |Lines(content)| && window <= Lines(content)[lo..];
    assert window[line - 1 - lo] == Lines(content)[line - 1];
  }

  /** The matches for a run of hits, one per hit, in hit order. */
  function HitMatches(rule: Rule, pattern: RulePattern, file: SourceFile, content: string, hits: seq<Hit>): (ms: seq<Match>)
    requires StartsWithin(hits, content)
    ensures |ms| == |hits|
  {
    if hits == [] then []
    else HitMatches(rule, pattern, file, content, hits[..|hits| - 1]) + [MakeMatch(rule, pattern, file, content, hits[|hits| - 1])]
  }

  lemma HitMatchesAt(rule: Rule, pattern: RulePattern, file: SourceFile, content: string, hits: seq<Hit>, j: nat)
    requires StartsWithin(hits, content) && j < |hits|
    ensures HitMatches(rule, pattern, file, content, hits)[j] == MakeMatch(rule, pattern, file, content, hits[j])
  {
    if j < |hits| - 1 {
      HitMatchesAt(rule, pattern, file, content, hits[..|hits| - 1], j);
    }
  }

  /** A regex pattern's matches: none when it does not compile, else one per hit. */
  function RegexMatches(rule: Rule, pattern: RulePattern, file: SourceFile, content: string, find: RegexFinder): seq<Match>
  {
    match find(pattern.pattern, content)
    case None => []
    case Some(hits) => HitMatches(rule, pattern, file, content, hits)
  }

  /** The pattern applies to the file: it lists no extensions, or lists the file's. */
  predicate ExtensionAllowed(pattern: RulePattern, file: SourceFile) {
    |pattern.fileTypes| == 0 || Extension(file.path) in pattern.fileTypes
  }

  /** One pattern's contribution; only regex patterns produce matches. */
  function PatternMatches(rule: Rule, pattern: RulePattern, file: SourceFile, content: string, find: RegexFinder): seq<Match>
  {
    if !ExtensionAllowed(pattern, file) then []
    else
      match pattern.kind
      case Regex => RegexMatches(rule, pattern, file, content, find)
      case Ast => []
      case Semantic => []
      case Taint => []
  }

  /** The patterns' contributions concatenated in pattern order. */
  function PatternsMatches(rule: Rule, patterns: seq<RulePattern>, file: SourceFile, content: string, find: RegexFinder): seq<Match> {
    FlatMap(patterns, p => PatternMatches(rule, p, file, content, find))
  }

  /** All matches of a rule in a file: none for a disabled rule or an unreadable file. */
  function RuleMatches(rule: Rule, file: SourceFile, find: RegexFinder): seq<Match>
  {
    if !rule.enabled then []
    else
      match file.text
      case None => []
      case Some(content) => PatternsMatches(rule, rule.patterns, file, content, find)
  }

  /** A pattern that can yield matches for the file: a regex pattern whose extension filter admits it. */
  predicate Productive(pattern: RulePattern, file: SourceFile) {
    pattern.kind == Regex && ExtensionAllowed(pattern, file)
  }

  /**
   * Only productive patterns contribute: dropping the AST, semantic and
   * taint patterns and those whose extension filter rejects the file
   * changes nothing, and the patterns after a skipped one still run.
   */
  lemma OnlyProductivePatternsMatter(rule: Rule, patterns: seq<RulePattern>, file: SourceFile,
                                     content: string, find: RegexFinder)
    ensures PatternsMatches(rule, patterns, file, content, find)
         == PatternsMatches(rule, Filter(patterns, p => Productive(p, file)), file, content, find)
  {
    FlatMapSkip(patterns, p => PatternMatches(rule, p, file, content, find), p => Productive(p, file));
  }

  /** A pattern that does not compile contributes nothing, and only that pattern: the others run as before, in order. */
  lemma UncompiledPatternSkipped(rule: Rule, patterns: seq<RulePattern>, file: SourceFile,
                                 content: string, find: RegexFinder, k: nat)
    requires k < |patterns| && find(patterns[k].pattern, content).None?
    ensures PatternsMatches(rule, patterns, file, content, find)
         == PatternsMatches(rule, patterns[..k], file, content, find) + PatternsMatches(rule, patterns[k + 1..], file, content, find)
  {
    FlatMapSkipOne(patterns, p => PatternMatches(rule, p, file, content, find), k);
  }

  /**
   * Where a match comes from: the rule and file it was asked for, and a
   * productive pattern of the list whose message (or else the rule's
   * description) it carries.
   */
  lemma PatternsMatchesProvenance(rule: Rule, patterns: seq<RulePattern>, file: SourceFile,
                                  content: string, find: RegexFinder, j: nat)
    requires j < |PatternsMatches(rule, patterns, file, content, find)|
    ensures var m := PatternsMatches(rule, patterns, file, content, find)[j];
            && m.rule == rule && m.file == file
            && exists k :: 0 <= k < |patterns| && Productive(patterns[k], file) && m.message == MessageFor(rule, patterns[k])
  {
    var f := p => PatternMatches(rule, p, file, content, find);
    FlatMapOrigin(patterns, f, j);
    var k, l :| 0 <= k < |patterns| && 0 <= l < |f(patterns[k])| && FlatMap(patterns, f)[j] == f(patterns[k])[l];
    var pattern := patterns[k];
    var hits := find(pattern.pattern, content).value;
    HitMatchesAt(rule, pattern, file, content, hits, l);
  }

  /** Every match of a rule in a file is of that enabled rule, in that readable file, from one of its productive patterns. */
  lemma RuleMatchesProvenance(rule: Rule, file: SourceFile, find: RegexFinder, j: nat)
    requires j < |RuleMatches(rule, file, find)|
    ensures var m := RuleMatches(rule, file, find)[j];
            && rule.enabled && file.text.Some?
            && m.rule == rule && m.file == file
            && exists k :: 0 <= k < |rule.patterns| && Productive(rule.patterns[k], file) && m.message == MessageFor(rule, rule.patterns[k])
  {
    PatternsMatchesProvenance(rule, rule.patterns, file, file.text.value, find, j);
  }

  /** `matchRegexPattern`: one match per hit, appended in hit order; a pattern that does not compile gives none. */
  method MatchRegexPattern(rule: Rule, pattern: RulePattern, file: SourceFile, content: string, find: RegexFinder)
    returns (matches: seq<Match>)
    ensures matches == RegexMatches(rule, pattern, file, content, find)
  {
    matches := [];
    var found := find(pattern.pattern, content);
    if found.None? {
      return;
    }
    var hits := found.value;
    var i := 0;
    while i < |hits|
      invariant 0 <= i <= |hits|
      invariant matches == HitMatches(rule, pattern, file, content, hits[..i])
    {
      var hit := hits[i];
      var line := LineNumber(content, hit.start);
      LineNumberInRange(content, hit.start);
      var column := ColumnNumber(content, hit.start);
      var snippet := CodeSnippet(content, line);
      matches := matches + [Match(rule, file, line, column, hit.text, snippet, MessageFor(rule, pattern))];
      assert hits[..i + 1][..i] == hits[..i];
      i := i + 1;
    }
    assert hits[..i] == hits;
  }

  /** `matchRule`: the regex patterns that apply to the file, each contributing its matches in pattern order. */
  method MatchRule(rule: Rule, file: SourceFile, find: RegexFinder) returns (matches: seq<Match>)
    ensures matches == RuleMatches(rule, file, find)
  {
    if !rule.enabled {
      return [];
    }
    if file.text.None? {
      return [];
    }
    var content := file.text.value;
    matches := [];
    for k := 0 to |rule.patterns|
      invariant matches == PatternsMatches(rule, rule.patterns[..k], file, content, find)
    {
      var pattern := rule.patterns[k];
      FlatMapStep(rule.patterns, k, p => PatternMatches(rule, p, file, content, find));
      if |pattern.fileTypes| > 0 {
        var extension := Extension(file.path);
        if extension !in pattern.fileTypes {
          continue;
        }
      }
      match pattern.kind {
        case Regex =>
          var found := MatchRegexPattern(rule, pattern, file, content, find);
          matches := matches + found;
        case Ast =>
        case Semantic =>
        case Taint =>
      }
    }
    assert rule.patterns[..|rule.patterns|] == rule.patterns;
  }

  /** `Match.toVulnerability`: rule identity, severity, category, compliance and quick fix, plus the match's position, snippet and message. */
  function ToVulnerability(m: Match, defaults: VulnerabilityDefaults): (v: Vulnerability)
    ensures v.ruleId == m.rule.id && v.ruleName == m.rule.name
    ensures v.severity == m.rule.severity && v.category == m.rule.category
    ensures v.compliance == m.rule.compliance && v.quickFix == m.rule.quickFix
    ensures v.description == m.message && v.filePath == m.file.path
    ensures v.lineNumber == m.lineNumber && v.columnNumber == m.columnNumber && v.codeSnippet == m.codeSnippet
  {
    Vulnerability(m.rule.id, m.rule.name, m.rule.severity, m.rule.category, m.message, m.file.path,
      m.lineNumber, m.columnNumber, m.codeSnippet, m.rule.compliance, m.rule.quickFix,
      defaults.status, defaults.firstDetected, defaults.lastDetected, defaults.fingerprint)
  }
}
