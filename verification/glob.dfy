/**
 * `ScanEngine.matchesGlobPattern`: a glob is turned into a Java regex by five
 * literal `String.replace` calls, and the regex must match the whole
 * relative path.
 *
 * The regexes this produces use only literal characters, `\.`, `.`, `[^/]`
 * and `[^/]*`, so a small regex datatype and a full-match function stand in
 * for `java.util.regex`. Globs are required to contain none of the other
 * regex metacharacters; for those globs the translation always lands inside
 * the fragment (`SafeGlobSupported`).
 *
 * The translation does not do what a glob means: the `*` step also rewrites
 * the `*` produced by the `**` steps, so `**` ends up as `.[^/]*` (one
 * arbitrary character, then a run without '/'). `IntendedMatch` is the glob
 * semantics the patterns are written for; the lemmas at the end set the two
 * side by side on concrete paths.
 */
module Glob {
  import opened Wrappers
  import opened Strings

  /** The translation, exactly as the five replacements run, in order. */
  function GlobToRegex(pattern: string): string {
    var escaped := Replace(pattern, ".", "\\.");
    var deep := Replace(escaped, "**/", ".*");
    var any := Replace(deep, "**", ".*");
    var runs := Replace(any, "*", "[^/]*");
    Replace(runs, "?", "[^/]")
  }

  /** The regex constructs the translated globs use. */
  datatype RegexAtom =
    | Literal(c: char)   // a plain character, or `\.` for a dot
    | AnyChar            // `.`: any character except a line terminator
    | NotSlash           // `[^/]`
    | NotSlashRun        // `[^/]*`

  /** Characters with a meaning in Java regex syntax outside a character class. */
  predicate IsMeta(c: char) {
    c == '\\' || c == '[' || c == ']' || c == '{' || c == '}' || c == '(' || c == ')'
    || c == '*' || c == '+' || c == '?' || c == '|' || c == '^' || c == '$' || c == '.'
  }

  /** Characters a glob must not contain: the metacharacters the translation leaves alone. */
  predicate IsForbidden(c: char) {
    IsMeta(c) && c != '*' && c != '?' && c != '.'
  }

  /** A glob made only of literal characters and the wildcards `*`, `?` and `.`. */
  predicate SafeGlob(pattern: string) {
    forall i :: 0 <= i < |pattern| ==> !IsForbidden(pattern[i])
  }

  function Prepend(a: RegexAtom, rest: Option<seq<RegexAtom>>): (r: Option<seq<RegexAtom>>)
    ensures r.Some? <==> rest.Some?
    ensures r.Some? ==> r.value == [a] + rest.value
  {
    if rest.None? then None else Some([a] + rest.value)
  }

  /** Reads a regex of the fragment; None for anything outside it. */
  function ParseRegex(r: string): Option<seq<RegexAtom>>
    decreases |r|
  {
    if r == [] then Some([])
    else if "[^/]*" <= r then Prepend(NotSlashRun, ParseRegex(r[5..]))
    else if "[^/]" <= r then Prepend(NotSlash, ParseRegex(r[4..]))
    else if "\\." <= r then Prepend(Literal('.'), ParseRegex(r[2..]))
    else if r[0] == '.' then Prepend(AnyChar, ParseRegex(r[1..]))
    else if IsMeta(r[0]) then None
    else Prepend(Literal(r[0]), ParseRegex(r[1..]))
  }

  /** The text of one atom. */
  function AtomText(a: RegexAtom): (r: string)
    ensures |r| > 0
  {
    match a
    case Literal(c) => if c == '.' then "\\." else [c]
    case AnyChar => "."
    case NotSlash => "[^/]"
    case NotSlashRun => "[^/]*"
  }

  /** Writing atoms back as regex text. */
  function RegexText(atoms: seq<RegexAtom>): string {
    if atoms == [] then "" else AtomText(atoms[0]) + RegexText(atoms[1..])
  }

  /** Atoms that can be written as text: no literal is a metacharacter other than the escaped dot. */
  predicate Writable(atoms: seq<RegexAtom>) {
    forall i :: 0 <= i < |atoms| && atoms[i].Literal? ==> atoms[i].c == '.' || !IsMeta(atoms[i].c)
  }

  /** Written atoms never start with a `*`, so they never extend a preceding `[^/]`. */
  lemma RegexTextHead(atoms: seq<RegexAtom>)
    requires Writable(atoms)
    ensures RegexText(atoms) != [] ==> RegexText(atoms)[0] != '*'
  {
    if atoms != [] && atoms[0].Literal? && atoms[0].c != '.' {
      assert RegexText(atoms)[0] == atoms[0].c;
    }
  }

  /** The parser reads one written atom off the front of the text. */
  lemma ParseHead(a: RegexAtom, t: string)
    requires a.Literal? ==> a.c == '.' || !IsMeta(a.c)
    requires a.NotSlash? && t != [] ==> t[0] != '*'
    ensures ParseRegex(AtomText(a) + t) == Prepend(a, ParseRegex(t))
  {
    var text := AtomText(a) + t;
    match a
    case Literal(c) =>
      if c == '.' {
        assert text[0] == '\\' && text[1] == '.' && text[2..] == t;
      } else {
        assert text[0] == c && text[1..] == t;
      }
    case AnyChar =>
      assert text[0] == '.' && text[1..] == t;
    case NotSlash =>
      assert text[4..] == t;
      assert !("[^/]*" <= text) by {
        if t != [] { assert text[4] == t[0]; }
      }
    case NotSlashRun =>
      assert text[5..] == t;
  }

  /** Reading back written atoms gives the same atoms. */
  lemma {:induction false} ParseRegexText(atoms: seq<RegexAtom>)
    requires Writable(atoms)
    ensures ParseRegex(RegexText(atoms)) == Some(atoms)
  {
    if atoms != [] {
      var rest := atoms[1..];
      assert Writable(rest);
      ParseRegexText(rest);
      RegexTextHead(rest);
      ParseHead(atoms[0], RegexText(rest));
      assert atoms == [atoms[0]] + rest;
    }
  }

  /** Java's line terminators, which `.` does not match. */
  predicate IsLineTerminator(c: char) {
    c == '\n' || c == '\r' || c == '\U{0085}' || c == '\U{2028}' || c == '\U{2029}'
  }

  /** `Regex(...).matches(s)`: the atoms match the whole of `s`. */
  function FullMatch(atoms: seq<RegexAtom>, s: string): bool
    decreases |atoms| + |s|
  {
    if atoms == [] then s == []
    else match atoms[0]
      case Literal(c) => |s| > 0 && s[0] == c && FullMatch(atoms[1..], s[1..])
      case AnyChar => |s| > 0 && !IsLineTerminator(s[0]) && FullMatch(atoms[1..], s[1..])
      case NotSlash => |s| > 0 && s[0] != '/' && FullMatch(atoms[1..], s[1..])
      case NotSlashRun => FullMatch(atoms[1..], s) || (|s| > 0 && s[0] != '/' && FullMatch(atoms, s[1..]))
  }

  /** The translated glob lies inside the modelled fragment of regex syntax. */
  predicate Supported(pattern: string) {
    ParseRegex(GlobToRegex(pattern)).Some?
  }

  /**
   * `matchesGlobPattern(path, pattern)` as written, for globs free of the
   * regex metacharacters the translation leaves alone.
   */
  function MatchesGlobPattern(path: string, pattern: string): bool
    requires SafeGlob(pattern)
  {
    SafeGlobSupported(pattern);
    FullMatch(ParseRegex(GlobToRegex(pattern)).value, path)
  }

  /**
   * Text the translation can still handle: no forbidden character, except a
   * backslash that escapes a following dot.
   */
  predicate Clean(s: string) {
    forall i :: 0 <= i < |s| ==> CleanAtIndex(s, i)
  }

  predicate CleanAtIndex(s: string, i: nat)
    requires i < |s|
  {
    !IsForbidden(s[i]) || (s[i] == '\\' && i + 1 < |s| && s[i + 1] == '.')
  }

  /** What Clean says about one position. */
  lemma CleanAt(s: string, i: nat)
    requires Clean(s) && i < |s|
    ensures !IsForbidden(s[i]) || (s[i] == '\\' && i + 1 < |s| && s[i + 1] == '.')
  {
    assert CleanAtIndex(s, i);
  }

  lemma CleanAppend(a: string, b: string)
    requires Clean(a) && Clean(b)
    ensures Clean(a + b)
  {
    forall i | 0 <= i < |a + b|
      ensures CleanAtIndex(a + b, i)
    {
      if i >= |a| {
        assert (a + b)[i] == b[i - |a|];
        assert CleanAtIndex(b, i - |a|);
        if IsForbidden(b[i - |a|]) {
          assert (a + b)[i + 1] == b[i - |a| + 1];
        }
      } else if IsForbidden(a[i]) {
        assert CleanAtIndex(a, i);
        assert (a + b)[i + 1] == a[i + 1];
      }
    }
  }

  lemma CleanSuffix(s: string, k: nat)
    requires Clean(s) && k <= |s|
    ensures Clean(s[k..])
  {
    forall i | 0 <= i < |s[k..]|
      ensures CleanAtIndex(s[k..], i)
    {
      assert s[k..][i] == s[k + i];
      assert CleanAtIndex(s, k + i);
      if IsForbidden(s[k + i]) {
        assert s[k..][i + 1] == s[k + i + 1];
      }
    }
  }

  /** Replacing a single character handles the text one character at a time. */
  lemma ReplaceOneChar(c: char, rest: string, from: string, to: string)
    requires |from| == 1
    ensures Replace([c] + rest, from, to) == (if c == from[0] then to else [c]) + Replace(rest, from, to)
  {
    assert ([c] + rest)[1..] == rest;
    assert from <= [c] + rest <==> c == from[0];
  }

  /** Escaping the dots of a safe glob leaves clean text. */
  lemma {:induction false} EscapedIsClean(pattern: string)
    requires SafeGlob(pattern)
    ensures Clean(Replace(pattern, ".", "\\."))
  {
    if pattern != [] {
      var c := pattern[0];
      var rest := pattern[1..];
      assert pattern == [c] + rest;
      assert SafeGlob(rest) by {
        forall i | 0 <= i < |rest| ensures !IsForbidden(rest[i]) {
          assert rest[i] == pattern[i + 1];
        }
      }
      EscapedIsClean(rest);
      ReplaceOneChar(c, rest, ".", "\\.");
      assert !IsForbidden(c);
      if c == '.' {
        assert Clean("\\.");
        CleanAppend("\\.", Replace(rest, ".", "\\."));
      } else {
        assert Clean([c]);
        CleanAppend([c], Replace(rest, ".", "\\."));
      }
    }
  }

  /**
   * A replacement that starts with neither a backslash nor a dot and inserts
   * clean text without backslashes keeps text clean: it can never split an
   * escaped dot.
   */
  lemma {:induction false} ReplaceKeepsClean(s: string, from: string, to: string)
    requires |from| > 0 && from[0] != '\\' && from[0] != '.'
    requires Clean(s) && Clean(to) && '\\' !in to
    ensures Clean(Replace(s, from, to))
    decreases |s|
  {
    if s == [] {
    } else if from <= s {
      CleanSuffix(s, |from|);
      ReplaceKeepsClean(s[|from|..], from, to);
      CleanAppend(to, Replace(s[|from|..], from, to));
    } else {
      CleanAt(s, 0);
      if s[0] == '\\' {
        CleanSuffix(s, 2);
        ReplaceKeepsClean(s[2..], from, to);
        ReplaceSkipsEscape(s, from, to);
        CleanAppend("\\.", Replace(s[2..], from, to));
      } else {
        CleanSuffix(s, 1);
        ReplaceKeepsClean(s[1..], from, to);
        assert Clean([s[0]]);
        CleanAppend([s[0]], Replace(s[1..], from, to));
      }
    }
  }

  /** A replacement starting with neither a backslash nor a dot passes an escaped dot through. */
  lemma ReplaceSkipsEscape(s: string, from: string, to: string)
    requires |from| > 0 && from[0] != '\\' && from[0] != '.'
    requires |s| >= 2 && s[0] == '\\' && s[1] == '.'
    ensures Replace(s, from, to) == "\\." + Replace(s[2..], from, to)
  {
    var tail := s[1..];
    assert tail[0] == '.' && tail[1..] == s[2..];
    assert !(from <= s);
    assert !(from <= tail);
  }

  /** The last two steps of the translation, which act on single characters. */
  function Widen(s: string): string {
    Replace(Replace(s, "*", "[^/]*"), "?", "[^/]")
  }

  /** Widening goes character by character: `*` becomes `[^/]*`, `?` becomes `[^/]`, anything else stays. */
  lemma WidenCons(c: char, rest: string)
    ensures Widen([c] + rest) == (if c == '*' then "[^/]*" else if c == '?' then "[^/]" else [c]) + Widen(rest)
  {
    ReplaceOneChar(c, rest, "*", "[^/]*");
    var head := if c == '*' then "[^/]*" else [c];
    ReplaceCharAppend(head, Replace(rest, "*", "[^/]*"), '?', "[^/]");
    if c == '*' {
      ReplaceAbsent("[^/]*", "?", "[^/]");
    } else {
      ReplaceOneChar(c, [], "?", "[^/]");
      assert [c] + [] == [c];
    }
  }

  /** One step of the parser on each kind of widened character. */
  lemma ParseWidenedStep(c: char, w: string)
    requires ParseRegex(w).Some? && (w != [] ==> w[0] != '*')
    requires !IsForbidden(c) && c != '\\'
    ensures var head := if c == '*' then "[^/]*" else if c == '?' then "[^/]" else [c];
            ParseRegex(head + w).Some? && (head + w)[0] != '*'
  {
    if c == '*' {
      assert ("[^/]*" + w)[5..] == w;
    } else if c == '?' {
      assert ("[^/]" + w)[4..] == w;
      assert !("[^/]*" <= "[^/]" + w) by {
        if w != [] { assert ("[^/]" + w)[4] == w[0]; }
      }
    } else {
      assert ([c] + w)[1..] == w;
    }
  }

  /** The parser reads an escaped dot followed by widened text. */
  lemma ParseEscapedDot(w: string)
    requires ParseRegex(w).Some?
    ensures ParseRegex("\\." + w).Some?
  {
    var r := "\\." + w;
    assert r[0] == '\\' && r[1] == '.';
    assert r[2..] == w;
    assert "\\." <= r;
  }

  /** Clean text, once widened, is read by the fragment's parser. */
  /** An escaped dot in clean text widens to itself, in front of the widened remainder. */
  lemma WidenEscape(s: string)
    requires |s| >= 2 && s[0] == '\\' && s[1] == '.'
    ensures Widen(s) == "\\." + Widen(s[2..])
  {
    var rest := s[1..];
    assert s == ['\\'] + rest;
    WidenCons('\\', rest);
    assert rest == ['.'] + s[2..];
    WidenCons('.', s[2..]);
  }

  lemma {:induction false} WidenedParses(s: string)
    requires Clean(s)
    ensures ParseRegex(Widen(s)).Some?
    ensures Widen(s) != [] ==> Widen(s)[0] != '*'
    decreases |s|
  {
    if s != [] {
      var c := s[0];
      CleanAt(s, 0);
      if c == '\\' {
        CleanSuffix(s, 2);
        WidenedParses(s[2..]);
        WidenEscape(s);
        ParseEscapedDot(Widen(s[2..]));
      } else {
        var rest := s[1..];
        assert s == [c] + rest;
        WidenCons(c, rest);
        CleanSuffix(s, 1);
        WidenedParses(rest);
        ParseWidenedStep(c, Widen(rest));
      }
    }
  }

  /** Every safe glob translates into a regex of the modelled fragment. */
  lemma SafeGlobSupported(pattern: string)
    requires SafeGlob(pattern)
    ensures Supported(pattern)
  {
    var escaped := Replace(pattern, ".", "\\.");
    EscapedIsClean(pattern);
    var deep := Replace(escaped, "**/", ".*");
    ReplaceKeepsClean(escaped, "**/", ".*");
    var any := Replace(deep, "**", ".*");
    ReplaceKeepsClean(deep, "**", ".*");
    WidenedParses(any);
  }

  // ---------------------------------------------------------------------
  // The glob semantics the patterns are written for

  // The parts of a glob: `**/`, `**`, `*`, `?` and literal characters.
  datatype GlobAtom = AnyDirs | AnyPath | Star | OneChar | Char(c: char)

  /** Splits a glob into its parts, longest wildcard first. */
  function ParseGlob(pattern: string): seq<GlobAtom>
    decreases |pattern|
  {
    if pattern == [] then []
    else if "**/" <= pattern then [AnyDirs] + ParseGlob(pattern[3..])
    else if "**" <= pattern then [AnyPath] + ParseGlob(pattern[2..])
    else if pattern[0] == '*' then [Star] + ParseGlob(pattern[1..])
    else if pattern[0] == '?' then [OneChar] + ParseGlob(pattern[1..])
    else [Char(pattern[0])] + ParseGlob(pattern[1..])
  }

  // The glob parts match the whole of `s`: `**/` matches zero or more whole
  // directories, `**` any text, `*` any text without '/', `?` one character other than '/'.
  function GlobMatch(atoms: seq<GlobAtom>, s: string): bool
    decreases |s|, |atoms|, 1
  {
    if atoms == [] then s == []
    else match atoms[0]
      case AnyDirs => GlobMatch(atoms[1..], s) || DirsThen(atoms[1..], s)
      case AnyPath => GlobMatch(atoms[1..], s) || (|s| > 0 && GlobMatch(atoms, s[1..]))
      case Star => GlobMatch(atoms[1..], s) || (|s| > 0 && s[0] != '/' && GlobMatch(atoms, s[1..]))
      case OneChar => |s| > 0 && s[0] != '/' && GlobMatch(atoms[1..], s[1..])
      case Char(c) => |s| > 0 && s[0] == c && GlobMatch(atoms[1..], s[1..])
  }

  /** Some non-empty prefix of `s` ends in '/' and `rest` matches what follows it. */
  function DirsThen(rest: seq<GlobAtom>, s: string): bool
    decreases |s|, |rest| + 1, 0
  {
    |s| > 0 && ((s[0] == '/' && GlobMatch(rest, s[1..])) || DirsThen(rest, s[1..]))
  }

  /** The intended meaning of a glob. */
  predicate IntendedMatch(path: string, pattern: string) {
    GlobMatch(ParseGlob(pattern), path)
  }

  /** A literal string as glob parts. */
  function Literally(lit: string): (atoms: seq<GlobAtom>)
    ensures |atoms| == |lit|
  {
    if lit == [] then [] else [Char(lit[0])] + Literally(lit[1..])
  }

  // `**/` at the front is read as one part.
  lemma ParseGlobDirs(rest: string)
    ensures ParseGlob("**/" + rest) == [AnyDirs] + ParseGlob(rest)
  {
    assert "**/" <= "**/" + rest;
    assert ("**/" + rest)[3..] == rest;
  }

  /** `**` not followed by '/' is read as one part. */
  lemma ParseGlobAnyPath(rest: string)
    requires rest == [] || rest[0] != '/'
    ensures ParseGlob("**" + rest) == [AnyPath] + ParseGlob(rest)
  {
    var p := "**" + rest;
    assert p[0] == '*' && p[1] == '*' && p[2..] == rest;
    assert !("**/" <= p) by {
      if rest != [] { assert p[2] == rest[0]; }
    }
  }

  /** A lone `*` is read as one part. */
  lemma ParseGlobStar(rest: string)
    requires rest == [] || rest[0] != '*'
    ensures ParseGlob("*" + rest) == [Star] + ParseGlob(rest)
  {
    var p := "*" + rest;
    assert p[0] == '*' && p[1..] == rest;
    assert !("**" <= p) by {
      if rest != [] { assert p[1] == rest[0]; }
    }
  }

  /** Text without wildcards is read character by character. */
  lemma {:induction false} ParseGlobLiterally(lit: string, rest: string)
    requires '*' !in lit && '?' !in lit
    ensures ParseGlob(lit + rest) == Literally(lit) + ParseGlob(rest)
  {
    if lit == [] {
      assert lit + rest == rest;
    } else {
      var p := lit + rest;
      assert p[0] == lit[0] && p[1..] == lit[1..] + rest;
      ParseGlobLiterally(lit[1..], rest);
    }
  }

  /** A literal part matches its character. */
  lemma CharMatches(c: char, rest: seq<GlobAtom>, t: string)
    requires GlobMatch(rest, t)
    ensures GlobMatch([Char(c)] + rest, [c] + t)
  {
    assert ([Char(c)] + rest)[1..] == rest;
    assert ([c] + t)[1..] == t;
  }

  /** Literal parts match their own text. */
  lemma {:induction false} LiterallyMatches(lit: string, rest: seq<GlobAtom>, t: string)
    requires GlobMatch(rest, t)
    ensures GlobMatch(Literally(lit) + rest, lit + t)
  {
    if lit == [] {
      assert Literally(lit) + rest == rest;
      assert lit + t == t;
    } else {
      LiterallyMatches(lit[1..], rest, t);
      CharMatches(lit[0], Literally(lit[1..]) + rest, lit[1..] + t);
      assert Literally(lit) + rest == [Char(lit[0])] + (Literally(lit[1..]) + rest);
      assert lit + t == [lit[0]] + (lit[1..] + t);
    }
  }

  /** `*` absorbs any text without '/'. */
  lemma {:induction false} StarMatches(name: string, rest: seq<GlobAtom>, t: string)
    requires '/' !in name && GlobMatch(rest, t)
    ensures GlobMatch([Star] + rest, name + t)
  {
    assert ([Star] + rest)[1..] == rest;
    if name != [] {
      StarMatches(name[1..], rest, t);
      assert (name + t)[1..] == name[1..] + t;
    } else {
      assert name + t == t;
    }
  }

  /** `**` absorbs any text at all. */
  lemma {:induction false} AnyPathMatches(x: string)
    ensures GlobMatch([AnyPath], x)
  {
    assert [AnyPath][1..] == [];
    if x != [] {
      AnyPathMatches(x[1..]);
    }
  }

  // `**/` absorbs any directory path and its closing '/'.
  lemma {:induction false} DirsMatch(dir: string, rest: seq<GlobAtom>, t: string)
    requires GlobMatch(rest, t)
    ensures DirsThen(rest, dir + "/" + t)
  {
    if dir == [] {
      assert (dir + "/" + t)[1..] == t;
    } else {
      DirsMatch(dir[1..], rest, t);
      assert (dir + "/" + t)[1..] == dir[1..] + "/" + t;
    }
  }

  // `**/*` followed by a literal suffix matches a file name ending in the suffix,
  // at the top or below any directory.
  lemma DeepSuffixMatches(dir: string, name: string, suffix: string)
    requires '/' !in name
    ensures GlobMatch([AnyDirs, Star] + Literally(suffix), name + suffix)
    ensures GlobMatch([AnyDirs, Star] + Literally(suffix), dir + "/" + name + suffix)
  {
    var lits := Literally(suffix);
    LiterallyMatches(suffix, [], "");
    assert lits + [] == lits && suffix + "" == suffix;
    StarMatches(name, lits, suffix);
    var tail := [Star] + lits;
    var atoms := [AnyDirs, Star] + lits;
    assert atoms[0] == AnyDirs && atoms[1..] == tail;
    DirsMatch(dir, tail, name + suffix);
    assert dir + "/" + (name + suffix) == dir + "/" + name + suffix;
  }

  // `**/<d>/**` matches everything inside a directory named `d`, at the top or below any directory.
  lemma InsideDirMatches(dir: string, d: string, inside: string)
    ensures GlobMatch([AnyDirs] + Literally(d + "/") + [AnyPath], d + "/" + inside)
    ensures GlobMatch([AnyDirs] + Literally(d + "/") + [AnyPath], dir + "/" + d + "/" + inside)
  {
    var tail := Literally(d + "/") + [AnyPath];
    var atoms := [AnyDirs] + Literally(d + "/") + [AnyPath];
    assert atoms[0] == AnyDirs && atoms[1..] == tail;
    AnyPathMatches(inside);
    LiterallyMatches(d + "/", [AnyPath], inside);
    DirsMatch(dir, tail, d + "/" + inside);
    assert dir + "/" + (d + "/" + inside) == dir + "/" + d + "/" + inside;
  }

  // ---------------------------------------------------------------------
  // Where the translation is right, and where it is not

  /** No `**` anywhere in the glob: every `*` stands alone. */
  predicate NoAnyPath(pattern: string) {
    forall i :: 0 < i < |pattern| ==> !(pattern[i - 1] == '*' && pattern[i] == '*')
  }

  /** The regex atom of one glob character, when no `**` is involved. */
  function CharAtom(c: char): RegexAtom {
    if c == '*' then NotSlashRun else if c == '?' then NotSlash else Literal(c)
  }

  /** The glob part of one glob character, when no `**` is involved. */
  function CharPart(c: char): GlobAtom {
    if c == '*' then Star else if c == '?' then OneChar else Char(c)
  }

  /** The regex a glob without `**` should become: one atom per character. */
  function CharAtoms(pattern: string): (atoms: seq<RegexAtom>)
    ensures |atoms| == |pattern|
  {
    if pattern == [] then [] else [CharAtom(pattern[0])] + CharAtoms(pattern[1..])
  }

  /** The parts of a glob without `**`: one part per character. */
  function CharParts(pattern: string): (parts: seq<GlobAtom>)
    ensures |parts| == |pattern|
  {
    if pattern == [] then [] else [CharPart(pattern[0])] + CharParts(pattern[1..])
  }

  lemma NoAnyPathTail(pattern: string)
    requires pattern != [] && NoAnyPath(pattern)
    ensures NoAnyPath(pattern[1..])
    ensures pattern[0] == '*' && |pattern| > 1 ==> pattern[1] != '*'
  {
    var rest := pattern[1..];
    forall i | 0 < i < |rest| ensures !(rest[i - 1] == '*' && rest[i] == '*') {
      assert rest[i - 1] == pattern[i] && rest[i] == pattern[i + 1];
    }
    if |pattern| > 1 {
      assert !(pattern[0] == '*' && pattern[1] == '*');
    }
  }

  /** Without `**`, the glob is read one character at a time. */
  lemma {:induction false} ParseGlobNoAnyPath(pattern: string)
    requires NoAnyPath(pattern)
    ensures ParseGlob(pattern) == CharParts(pattern)
  {
    if pattern != [] {
      var c, rest := pattern[0], pattern[1..];
      NoAnyPathTail(pattern);
      ParseGlobNoAnyPath(rest);
      if c == '*' {
        assert pattern == "*" + rest;
        ParseGlobStar(rest);
      }
    }
  }

  /** Escaping dots goes character by character. */
  lemma EscapeCons(c: char, rest: string)
    ensures Replace([c] + rest, ".", "\\.") == (if c == '.' then "\\." else [c]) + Replace(rest, ".", "\\.")
  {
    ReplaceOneChar(c, rest, ".", "\\.");
  }

  // Without `**` in the glob, the `**/` and `**` steps find nothing to replace.
  lemma {:induction false} AnyPathStepsIdle(pattern: string, from: string, to: string)
    requires NoAnyPath(pattern)
    requires |from| >= 2 && from[0] == '*' && from[1] == '*'
    ensures Replace(Replace(pattern, ".", "\\."), from, to) == Replace(pattern, ".", "\\.")
  {
    if pattern != [] {
      var c, rest := pattern[0], pattern[1..];
      assert pattern == [c] + rest;
      NoAnyPathTail(pattern);
      AnyPathStepsIdle(rest, from, to);
      EscapeCons(c, rest);
      var tail := Replace(rest, ".", "\\.");
      if c == '*' {
        assert tail == [] || tail[0] != '*' by {
          if rest != [] {
            assert rest == [rest[0]] + rest[1..];
            EscapeCons(rest[0], rest[1..]);
          }
        }
        assert !(from <= [c] + tail) by {
          if tail != [] { assert ([c] + tail)[1] == tail[0]; }
        }
        ReplaceMiss(c, tail, from, to);
      } else {
        var head := if c == '.' then "\\." else [c];
        assert from[0] !in head;
        ReplaceSkip(head, tail, from, to);
      }
    }
  }

  /** The last two steps turn escaped text into one atom's text per glob character. */
  lemma {:induction false} WidenEscaped(pattern: string)
    ensures Widen(Replace(pattern, ".", "\\.")) == RegexText(CharAtoms(pattern))
  {
    if pattern != [] {
      var c, rest := pattern[0], pattern[1..];
      assert pattern == [c] + rest;
      EscapeCons(c, rest);
      WidenEscaped(rest);
      var tail := Replace(rest, ".", "\\.");
      if c == '.' {
        var s := "\\." + tail;
        assert s[0] == '\\' && s[1] == '.' && s[2..] == tail;
        WidenEscape(s);
      } else {
        WidenCons(c, tail);
      }
      assert CharAtoms(pattern)[1..] == CharAtoms(rest);
    }
  }

  lemma {:induction false} CharAtomsWritable(pattern: string)
    requires SafeGlob(pattern)
    ensures Writable(CharAtoms(pattern))
  {
    if pattern != [] {
      var rest := pattern[1..];
      assert SafeGlob(rest) by {
        forall i | 0 <= i < |rest| ensures !IsForbidden(rest[i]) { assert rest[i] == pattern[i + 1]; }
      }
      CharAtomsWritable(rest);
      var atoms := CharAtoms(pattern);
      forall i | 0 <= i < |atoms| && atoms[i].Literal? ensures atoms[i].c == '.' || !IsMeta(atoms[i].c) {
        if i > 0 {
          assert atoms[i] == CharAtoms(rest)[i - 1];
        } else {
          assert !IsForbidden(pattern[0]);
        }
      }
    }
  }

  /** One atom per character matches exactly what one part per character matches. */
  lemma {:induction false} CharAtomsMatch(pattern: string, s: string)
    ensures FullMatch(CharAtoms(pattern), s) == GlobMatch(CharParts(pattern), s)
    decreases |pattern| + |s|
  {
    if pattern != [] {
      var c, rest := pattern[0], pattern[1..];
      assert CharAtoms(pattern)[1..] == CharAtoms(rest);
      assert CharParts(pattern)[1..] == CharParts(rest);
      if c == '*' {
        CharAtomsMatch(rest, s);
        if s != [] {
          CharAtomsMatch(pattern, s[1..]);
        }
      } else if s != [] {
        CharAtomsMatch(rest, s[1..]);
      }
    }
  }

  /**
   * For a glob without `**` the translation is exact: the regex matches a
   * path exactly when the glob does.
   */
  lemma TranslationExactWithoutAnyPath(path: string, pattern: string)
    requires SafeGlob(pattern) && NoAnyPath(pattern)
    ensures MatchesGlobPattern(path, pattern) == IntendedMatch(path, pattern)
  {
    var escaped := Replace(pattern, ".", "\\.");
    AnyPathStepsIdle(pattern, "**/", ".*");
    AnyPathStepsIdle(pattern, "**", ".*");
    assert GlobToRegex(pattern) == Widen(escaped);
    WidenEscaped(pattern);
    CharAtomsWritable(pattern);
    ParseRegexText(CharAtoms(pattern));
    ParseGlobNoAnyPath(pattern);
    CharAtomsMatch(pattern, path);
  }

  /** `[^/]*` alone matches exactly the texts without '/'. */
  lemma {:induction false} NotSlashRunMatches(s: string)
    ensures FullMatch([NotSlashRun], s) <==> '/' !in s
  {
    assert [NotSlashRun][1..] == [];
    if s != [] {
      NotSlashRunMatches(s[1..]);
      assert s == [s[0]] + s[1..];
    }
  }

  lemma LoneAnyPathDirs()
    ensures Replace("**", "**/", ".*") == "**"
  {
    assert !("**/" <= "**") && !("**/" <= "*");
    assert "**" == ['*'] + "*" && "*" == ['*'] + [];
    ReplaceMiss('*', "*", "**/", ".*");
    ReplaceMiss('*', [], "**/", ".*");
  }

  lemma LoneAnyPathAny()
    ensures Replace("**", "**", ".*") == ".*"
  {
    assert "**" + [] == "**";
    ReplaceFound("**", [], ".*");
  }

  lemma LoneAnyPathRuns()
    ensures Replace(".*", "*", "[^/]*") == ".[^/]*"
  {
    assert ".*" == "." + "*" && "*" + [] == "*";
    ReplaceFound("*", [], "[^/]*");
    ReplaceSkip(".", "*", "*", "[^/]*");
    assert "." + "[^/]*" == ".[^/]*";
  }

  lemma AnyPathRegex()
    ensures GlobToRegex("**") == ".[^/]*"
  {
    ReplaceAbsent("**", ".", "\\.");
    LoneAnyPathDirs();
    LoneAnyPathAny();
    LoneAnyPathRuns();
    ReplaceAbsent(".[^/]*", "?", "[^/]");
  }

  lemma AnyPathParse()
    ensures ParseRegex(".[^/]*") == Some([AnyChar, NotSlashRun])
  {
    assert RegexText([AnyChar, NotSlashRun]) == ".[^/]*";
    ParseRegexText([AnyChar, NotSlashRun]);
  }

  /**
   * A lone `**` becomes `.[^/]*`: one character that is not a line
   * terminator, then a run without '/'. Read as a glob it matches every path.
   */
  lemma AnyPathTranslation(path: string)
    ensures SafeGlob("**")
    ensures GlobToRegex("**") == ".[^/]*"
    ensures ParseRegex(".[^/]*") == Some([AnyChar, NotSlashRun])
    ensures MatchesGlobPattern(path, "**") <==> |path| > 0 && !IsLineTerminator(path[0]) && '/' !in path[1..]
    ensures IntendedMatch(path, "**")
  {
    AnyPathRegex();
    AnyPathParse();
    var atoms := [AnyChar, NotSlashRun];
    assert atoms[1..] == [NotSlashRun];
    if path != [] {
      NotSlashRunMatches(path[1..]);
    }
    assert ParseGlob("**") == [AnyPath] + ParseGlob([]) by {
      assert "**" == "**" + [];
      ParseGlobAnyPath([]);
    }
    assert ParseGlob("**") == [AnyPath];
    AnyPathMatches(path);
  }
}
