/**
 * What the glob translation of `ScanEngine.matchesGlobPattern` does to the
 * patterns of the default scan configuration, set beside what those patterns
 * mean as globs.
 *
 * As written, the default include pattern for Java misses `src/Main.java` and
 * the default exclude pattern for test directories misses
 * `src/test/Foo.java`; read as globs (`IntendedMatch`), both select them.
 * Each translation is computed one replacement at a time.
 */
module GlobFindings {
  import opened Wrappers
  import opened Strings
  import opened Reports
  import opened Glob

  lemma DefaultPatterns()
    ensures DefaultIncludePatterns[0] == "**/*.java"
    ensures DefaultExcludePatterns[0] == "**/test/**"
  {
  }

  /** Every default pattern is a glob the translation handles: no regex metacharacter but `*`, `?` and `.`. */
  lemma DefaultPatternsSafe()
    ensures forall i :: 0 <= i < |DefaultIncludePatterns| ==> SafeGlob(DefaultIncludePatterns[i])
    ensures forall i :: 0 <= i < |DefaultExcludePatterns| ==> SafeGlob(DefaultExcludePatterns[i])
  {
  }

  // Each step of the translation below takes its text apart at the places the
  // replacement looks at; the `...Pieces` lemmas put the parts back together.

  lemma DeepJavaDotsPieces()
    ensures "." + "java" == ".java" && "\\." + "java" == "\\.java"
    ensures "**/*" + ".java" == "**/*.java" && "**/*" + "\\.java" == "**/*\\.java"
  {
  }

  lemma DeepJavaDots()
    ensures Replace("**/*.java", ".", "\\.") == "**/*\\.java"
  {
    DeepJavaDotsPieces();
    ReplaceAbsent("java", ".", "\\.");
    ReplaceFound(".", "java", "\\.");
    ReplaceSkip("**/*", ".java", ".", "\\.");
  }

  lemma DeepJavaDirsPieces()
    ensures ['*'] + "\\.java" == "*\\.java" && "**/" + "*\\.java" == "**/*\\.java"
    ensures ".*" + "*\\.java" == ".**\\.java"
    ensures !("**/" <= "*\\.java")
  {
    assert "*\\.java"[1] == '\\';
  }

  lemma DeepJavaDirs()
    ensures Replace("**/*\\.java", "**/", ".*") == ".**\\.java"
  {
    DeepJavaDirsPieces();
    ReplaceAbsent("\\.java", "**/", ".*");
    ReplaceMiss('*', "\\.java", "**/", ".*");
    ReplaceFound("**/", "*\\.java", ".*");
  }

  lemma DeepJavaAnyPathPieces()
    ensures "**" + "\\.java" == "**\\.java" && ".*" + "\\.java" == ".*\\.java"
    ensures "." + "**\\.java" == ".**\\.java" && "." + ".*\\.java" == "..*\\.java"
  {
  }

  lemma DeepJavaAnyPath()
    ensures Replace(".**\\.java", "**", ".*") == "..*\\.java"
  {
    DeepJavaAnyPathPieces();
    ReplaceAbsent("\\.java", "**", ".*");
    ReplaceFound("**", "\\.java", ".*");
    ReplaceSkip(".", "**\\.java", "**", ".*");
  }

  lemma DeepJavaStarsPieces()
    ensures "*" + "\\.java" == "*\\.java" && "[^/]*" + "\\.java" == "[^/]*\\.java"
    ensures ".." + "*\\.java" == "..*\\.java" && ".." + "[^/]*\\.java" == "..[^/]*\\.java"
  {
  }

  lemma DeepJavaStars()
    ensures Replace("..*\\.java", "*", "[^/]*") == "..[^/]*\\.java"
  {
    DeepJavaStarsPieces();
    ReplaceAbsent("\\.java", "*", "[^/]*");
    ReplaceFound("*", "\\.java", "[^/]*");
    ReplaceSkip("..", "*\\.java", "*", "[^/]*");
  }

  /** The regex the default Java pattern becomes, and the atoms it is read as. */
  const DeepJavaRegex: string := "..[^/]*\\.java"
  const DeepJavaAtoms: seq<RegexAtom> := [AnyChar, AnyChar, NotSlashRun, Literal('.'), Literal('j'), Literal('a'), Literal('v'), Literal('a')]

  lemma DeepJavaMarks()
    ensures Replace(DeepJavaRegex, "?", "[^/]") == DeepJavaRegex
  {
    ReplaceAbsent(DeepJavaRegex, "?", "[^/]");
  }

  /** The default Java pattern becomes `..[^/]*\.java`: the `*` step rewrites the `*` left by the `**` steps. */
  lemma DeepJavaTranslation()
    ensures GlobToRegex(DefaultIncludePatterns[0]) == DeepJavaRegex
  {
    DefaultPatterns();
    DeepJavaDots();
    DeepJavaDirs();
    DeepJavaAnyPath();
    DeepJavaStars();
    DeepJavaMarks();
  }

  lemma DeepJavaTextParts()
    ensures RegexText([AnyChar, AnyChar, NotSlashRun, Literal('.'), Literal('j'), Literal('a'), Literal('v'), Literal('a')])
      == "." + ("." + ("[^/]*" + ("\\." + ("j" + ("a" + ("v" + ("a" + "")))))))
  {
  }

  lemma DeepJavaWritable()
    ensures Writable([AnyChar, AnyChar, NotSlashRun, Literal('.'), Literal('j'), Literal('a'), Literal('v'), Literal('a')])
  {
  }

  lemma DeepJavaTextJoined()
    ensures "." + ("." + ("[^/]*" + ("\\." + ("j" + ("a" + ("v" + ("a" + ""))))))) == "..[^/]*\\.java"
  {
  }

  lemma DeepJavaText()
    ensures RegexText(DeepJavaAtoms) == DeepJavaRegex
    ensures Writable(DeepJavaAtoms)
  {
    DeepJavaTextParts();
    DeepJavaTextJoined();
    DeepJavaWritable();
  }

  lemma DeepJavaParse()
    ensures ParseRegex(DeepJavaRegex) == Some(DeepJavaAtoms)
  {
    DeepJavaText();
    ParseRegexText(DeepJavaAtoms);
  }

  lemma DeepJavaAtomsMiss()
    ensures !FullMatch([AnyChar, AnyChar, NotSlashRun, Literal('.'), Literal('j'), Literal('a'), Literal('v'), Literal('a')], "src/Main.java")
  {
  }

  /** `..[^/]*\.java` cannot match `src/Main.java`: after two characters a '/' remains before `.java`. */
  lemma DeepJavaRegexMisses()
    ensures !FullMatch(DeepJavaAtoms, "src/Main.java")
  {
    DeepJavaAtomsMiss();
  }

  /** As written, the default Java include pattern does not select a Java file one directory down. */
  lemma DefaultIncludeMissesNestedJava()
    ensures SafeGlob(DefaultIncludePatterns[0])
    ensures !MatchesGlobPattern("src/Main.java", DefaultIncludePatterns[0])
  {
    DefaultPatternsSafe();
    DeepJavaTranslation();
    DeepJavaParse();
    DeepJavaRegexMisses();
  }

  lemma DeepJavaGlobOf(pattern: string)
    requires pattern == "**/*.java"
    ensures ParseGlob(pattern) == [AnyDirs, Star] + Literally(".java")
  {
    assert ".java" + "" == ".java" && "*" + ".java" == "*.java" && "**/" + "*.java" == "**/*.java";
    ParseGlobLiterally(".java", "");
    ParseGlobStar(".java");
    ParseGlobDirs("*.java");
  }

  lemma DeepJavaGlob()
    ensures ParseGlob(DefaultIncludePatterns[0]) == [AnyDirs, Star] + Literally(".java")
  {
    DefaultPatterns();
    DeepJavaGlobOf(DefaultIncludePatterns[0]);
  }

  /** Read as a glob, the default Java include pattern selects Java files at every depth. */
  lemma DefaultIncludeIntended(dir: string, name: string)
    requires '/' !in name
    ensures IntendedMatch(name + ".java", DefaultIncludePatterns[0])
    ensures IntendedMatch(dir + "/" + name + ".java", DefaultIncludePatterns[0])
  {
    DeepJavaGlob();
    DeepSuffixMatches(dir, name, ".java");
  }

  /** Read as a glob, the default Java include pattern selects the file the translation misses. */
  lemma DefaultIncludeSelectsNestedJava()
    ensures IntendedMatch("src/Main.java", DefaultIncludePatterns[0])
  {
    DefaultIncludeIntended("src", "Main");
    assert "src" + "/" + "Main" + ".java" == "src/Main.java";
  }

  lemma TestDirDots()
    ensures Replace("**/test/**", ".", "\\.") == "**/test/**"
  {
    ReplaceAbsent("**/test/**", ".", "\\.");
  }

  lemma TestDirDirsPieces()
    ensures ['*'] + "" == "*" && ['*'] + "*" == "**" && "test/" + "**" == "test/**"
    ensures "**/" + "test/**" == "**/test/**" && ".*" + "test/**" == ".*test/**"
    ensures !("**/" <= "*") && !("**/" <= "**")
  {
  }

  lemma TestDirDirs()
    ensures Replace("**/test/**", "**/", ".*") == ".*test/**"
  {
    TestDirDirsPieces();
    ReplaceMiss('*', "", "**/", ".*");
    ReplaceMiss('*', "*", "**/", ".*");
    ReplaceSkip("test/", "**", "**/", ".*");
    ReplaceFound("**/", "test/**", ".*");
  }

  lemma TestDirAnyPathPieces()
    ensures "**" + "" == "**" && ".*" + "" == ".*" && "test/" + "**" == "test/**"
    ensures "test/" + ".*" == "test/.*" && ['*'] + "test/**" == "*test/**" && ['*'] + "test/.*" == "*test/.*"
    ensures "." + "*test/**" == ".*test/**" && "." + "*test/.*" == ".*test/.*"
    ensures !("**" <= "*test/**")
  {
    assert "*test/**"[1] == 't';
  }

  lemma TestDirAnyPath()
    ensures Replace(".*test/**", "**", ".*") == ".*test/.*"
  {
    TestDirAnyPathPieces();
    ReplaceFound("**", "", ".*");
    ReplaceSkip("test/", "**", "**", ".*");
    ReplaceMiss('*', "test/**", "**", ".*");
    ReplaceSkip(".", "*test/**", "**", ".*");
  }

  lemma TestDirStarsPieces()
    ensures "*" + "" == "*" && "[^/]*" + "" == "[^/]*" && "test/." + "*" == "test/.*"
    ensures "test/." + "[^/]*" == "test/.[^/]*" && "*" + "test/.*" == "*test/.*"
    ensures "[^/]*" + "test/.[^/]*" == "[^/]*test/.[^/]*"
    ensures "." + "*test/.*" == ".*test/.*" && "." + "[^/]*test/.[^/]*" == ".[^/]*test/.[^/]*"
  {
  }

  lemma TestDirStars()
    ensures Replace(".*test/.*", "*", "[^/]*") == ".[^/]*test/.[^/]*"
  {
    TestDirStarsPieces();
    ReplaceFound("*", "", "[^/]*");
    ReplaceSkip("test/.", "*", "*", "[^/]*");
    ReplaceFound("*", "test/.*", "[^/]*");
    ReplaceSkip(".", "*test/.*", "*", "[^/]*");
  }

  /** The regex the default test-directory pattern becomes, and the atoms it is read as. */
  const TestDirRegex: string := ".[^/]*test/.[^/]*"
  const TestDirAtoms: seq<RegexAtom> := [AnyChar, NotSlashRun, Literal('t'), Literal('e'), Literal('s'), Literal('t'), Literal('/'), AnyChar, NotSlashRun]

  lemma TestDirMarks()
    ensures Replace(TestDirRegex, "?", "[^/]") == TestDirRegex
  {
    ReplaceAbsent(TestDirRegex, "?", "[^/]");
  }

  /** The default test-directory pattern becomes `.[^/]*test/.[^/]*`: each `**` is one character and a run without '/'. */
  lemma TestDirTranslation()
    ensures GlobToRegex(DefaultExcludePatterns[0]) == TestDirRegex
  {
    DefaultPatterns();
    TestDirDots();
    TestDirDirs();
    TestDirAnyPath();
    TestDirStars();
    TestDirMarks();
  }

  lemma TestDirTextParts()
    ensures RegexText([AnyChar, NotSlashRun, Literal('t'), Literal('e'), Literal('s'), Literal('t'), Literal('/'), AnyChar, NotSlashRun])
      == "." + ("[^/]*" + ("t" + ("e" + ("s" + ("t" + ("/" + ("." + ("[^/]*" + ""))))))))
  {
  }

  lemma TestDirWritable()
    ensures Writable([AnyChar, NotSlashRun, Literal('t'), Literal('e'), Literal('s'), Literal('t'), Literal('/'), AnyChar, NotSlashRun])
  {
  }

  lemma TestDirTextJoined()
    ensures "." + ("[^/]*" + ("t" + ("e" + ("s" + ("t" + ("/" + ("." + ("[^/]*" + "")))))))) == ".[^/]*test/.[^/]*"
  {
  }

  lemma TestDirText()
    ensures RegexText(TestDirAtoms) == TestDirRegex
    ensures Writable(TestDirAtoms)
  {
    TestDirTextParts();
    TestDirTextJoined();
    TestDirWritable();
  }

  lemma TestDirParse()
    ensures ParseRegex(TestDirRegex) == Some(TestDirAtoms)
  {
    TestDirText();
    ParseRegexText(TestDirAtoms);
  }

  lemma TestDirAtomsMiss()
    ensures !FullMatch([AnyChar, NotSlashRun, Literal('t'), Literal('e'), Literal('s'), Literal('t'), Literal('/'), AnyChar, NotSlashRun], "src/test/Foo.java")
  {
  }

  /** `.[^/]*test/.[^/]*` cannot match `src/test/Foo.java`: `test/` would have to follow a run without '/'. */
  lemma TestDirRegexMisses()
    ensures !FullMatch(TestDirAtoms, "src/test/Foo.java")
  {
    TestDirAtomsMiss();
  }

  /** As written, the default test-directory exclude pattern does not exclude a test directory one level down. */
  lemma DefaultExcludeMissesNestedTestDir()
    ensures SafeGlob(DefaultExcludePatterns[0])
    ensures !MatchesGlobPattern("src/test/Foo.java", DefaultExcludePatterns[0])
  {
    DefaultPatternsSafe();
    TestDirTranslation();
    TestDirParse();
    TestDirRegexMisses();
  }

  lemma TestDirGlobOf(pattern: string)
    requires pattern == "**/test/**"
    ensures ParseGlob(pattern) == [AnyDirs] + Literally("test" + "/") + [AnyPath]
  {
    assert "test" + "/" == "test/";
    assert "**" + "" == "**" && "test/" + "**" == "test/**" && "**/" + "test/**" == "**/test/**";
    ParseGlobAnyPath("");
    ParseGlobLiterally("test/", "**");
    ParseGlobDirs("test/**");
  }

  lemma TestDirGlob()
    ensures ParseGlob(DefaultExcludePatterns[0]) == [AnyDirs] + Literally("test" + "/") + [AnyPath]
  {
    DefaultPatterns();
    TestDirGlobOf(DefaultExcludePatterns[0]);
  }

  /** Read as a glob, the default test-directory pattern excludes test directories at every depth. */
  lemma DefaultExcludeIntended(dir: string, inside: string)
    ensures IntendedMatch("test/" + inside, DefaultExcludePatterns[0])
    ensures IntendedMatch(dir + "/test/" + inside, DefaultExcludePatterns[0])
  {
    TestDirGlob();
    InsideDirMatches(dir, "test", inside);
    assert "test" + "/" + inside == "test/" + inside;
    assert dir + "/" + "test" + "/" + inside == dir + "/test/" + inside;
  }

  /** Read as a glob, the default test-directory pattern excludes the file the translation lets through. */
  lemma DefaultExcludeSelectsNestedTestDir()
    ensures IntendedMatch("src/test/Foo.java", DefaultExcludePatterns[0])
  {
    DefaultExcludeIntended("src", "Foo.java");
    assert "src" + "/test/" == "src/test/";
    assert "src/test/" + "Foo.java" == "src/test/Foo.java";
  }
}
