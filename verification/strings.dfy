/**
 * The Kotlin/Java string operations the core relies on: counting a
 * character, `lastIndexOf`, splitting into lines and joining them back,
 * `File.name`/`File.extension`, and `String.replace`.
 */
module Strings {
  import opened Seqs

  /** `s.count { it == c }`. */
  function CountChar(s: string, c: char): (n: nat)
    ensures n <= |s|
  {
    if |s| == 0 then 0
    else CountChar(s[..|s| - 1], c) + (if s[|s| - 1] == c then 1 else 0)
  }

  /** The count is zero exactly when `c` does not occur. */
  lemma {:induction false} CountCharZero(s: string, c: char)
    ensures CountChar(s, c) == 0 <==> c !in s
  {
    if |s| > 0 {
      CountCharZero(s[..|s| - 1], c);
      assert s == s[..|s| - 1] + [s[|s| - 1]];
    }
  }

  /** Counting adds up over concatenation. */
  lemma {:induction false} CountCharAppend(a: string, b: string, c: char)
    ensures CountChar(a + b, c) == CountChar(a, c) + CountChar(b, c)
    decreases |b|
  {
    if |b| > 0 {
      var b' := b[..|b| - 1];
      assert (a + b)[..|a + b| - 1] == a + b';
      CountCharAppend(a, b', c);
    } else {
      assert a + b == a;
    }
  }

  /**
   * Java's `s.lastIndexOf(c, from)`: the greatest index at most `from` holding
   * `c`, or -1. A negative `from` finds nothing; one past the end searches
   * the whole string.
   */
  function LastIndexOf(s: string, c: char, from: int): (r: int)
    ensures -1 <= r < |s| && (r == -1 || r <= from)
    ensures r >= 0 ==> s[r] == c
    decreases if from < 0 then 0 else from + 1
  {
    if from < 0 then -1
    else if from >= |s| then LastIndexOf(s, c, |s| - 1)
    else if s[from] == c then from
    else LastIndexOf(s, c, from - 1)
  }

  /** Nothing after the index LastIndexOf finds, up to `from`, is `c`. */
  lemma {:induction false} LastIndexOfIsLast(s: string, c: char, from: int, j: int)
    requires LastIndexOf(s, c, from) < j <= from && j < |s|
    ensures s[j] != c
    decreases if from < 0 then 0 else from + 1
  {
    if from >= |s| {
      LastIndexOfIsLast(s, c, |s| - 1, j);
    } else if j < from {
      LastIndexOfIsLast(s, c, from - 1, j);
    }
  }

  /** LastIndexOf finds the `c` at `k` when nothing after it, up to `from`, is `c`. */
  lemma {:induction false} LastIndexOfAt(s: string, c: char, from: int, k: nat)
    requires k <= from < |s| && s[k] == c
    requires forall m :: k < m <= from ==> s[m] != c
    ensures LastIndexOf(s, c, from) == k
    decreases from
  {
    if from > k {
      LastIndexOfAt(s, c, from - 1, k);
    }
  }

  /** Searching back from inside a prefix finds what searching the whole text finds. */
  lemma {:induction false} LastIndexOfPrefix(s: string, c: char, n: nat, from: int)
    requires from < n <= |s|
    ensures LastIndexOf(s[..n], c, from) == LastIndexOf(s, c, from)
    decreases if from < 0 then 0 else from + 1
  {
    if from >= 0 && s[from] != c {
      LastIndexOfPrefix(s, c, n, from - 1);
    }
  }

  /** The last `c` of the whole text: nothing after it is `c`, and -1 means `c` does not occur. */
  lemma LastOf(s: string, c: char)
    ensures var j := LastIndexOf(s, c, |s| - 1);
            && (j < 0 ==> c !in s)
            && (j >= 0 ==> c !in s[j + 1..])
  {
    var j := LastIndexOf(s, c, |s| - 1);
    forall k | j < k < |s|
      ensures s[k] != c
    {
      LastIndexOfIsLast(s, c, |s| - 1, k);
    }
    if j < 0 {
      assert c !in s;
    } else {
      NotInSuffix(s, j + 1, c);
      assert c !in s[j + 1..];
    }
  }

  /**
   * Kotlin's `lines()` on text whose only line terminator is '\n': the lines
   * of the text before the last '\n', then the text after it.
   */
  function Lines(s: string): (ls: seq<string>)
    ensures |ls| >= 1
    decreases |s|
  {
    var j := LastIndexOf(s, '\n', |s| - 1);
    if j < 0 then [s] else Lines(s[..j]) + [s[j + 1..]]
  }

  /** There is one line more than there are '\n' characters. */
  lemma {:induction false} LinesCount(s: string)
    ensures |Lines(s)| == CountChar(s, '\n') + 1
    decreases |s|
  {
    var j := LastIndexOf(s, '\n', |s| - 1);
    LastOf(s, '\n');
    if j < 0 {
      CountCharZero(s, '\n');
    } else {
      LinesCount(s[..j]);
      assert s == s[..j] + [s[j]] + s[j + 1..];
      CountCharAppend(s[..j] + [s[j]], s[j + 1..], '\n');
      CountCharAppend(s[..j], [s[j]], '\n');
      CountCharZero(s[j + 1..], '\n');
      assert CountChar([s[j]], '\n') == 1 by { assert [s[j]][..0] == []; }
    }
  }

  /** No line holds a '\n'. */
  lemma {:induction false} LinesHaveNoNewline(s: string)
    ensures forall k :: 0 <= k < |Lines(s)| ==> '\n' !in Lines(s)[k]
    decreases |s|
  {
    var j := LastIndexOf(s, '\n', |s| - 1);
    LastOf(s, '\n');
    if j >= 0 {
      LinesHaveNoNewline(s[..j]);
    }
  }

  /** `lines.joinToString("\n")`. */
  function JoinLines(ls: seq<string>): string {
    if |ls| == 0 then ""
    else if |ls| == 1 then ls[0]
    else JoinLines(ls[..|ls| - 1]) + "\n" + ls[|ls| - 1]
  }

  /** Splitting into lines and joining them back gives the text unchanged. */
  lemma {:induction false} JoinLinesOfLines(s: string)
    ensures JoinLines(Lines(s)) == s
    decreases |s|
  {
    var j := LastIndexOf(s, '\n', |s| - 1);
    if j >= 0 {
      var front := Lines(s[..j]);
      JoinLinesOfLines(s[..j]);
      assert (front + [s[j + 1..]])[..|front|] == front;
      assert s == s[..j] + "\n" + s[j + 1..];
    }
  }

  /** Text, a '\n' and a last line without '\n' split into the text's lines and that last line. */
  lemma LinesAppendLast(a: string, b: string)
    requires '\n' !in b
    ensures Lines(a + "\n" + b) == Lines(a) + [b]
  {
    var s := a + "\n" + b;
    AroundParts(a, '\n', b);
    LastIndexOfAt(s, '\n', |s| - 1, |a|);
  }

  /** Joining lines that hold no '\n' and splitting again gives the same lines. */
  lemma {:induction false} LinesOfJoinLines(ls: seq<string>)
    requires |ls| >= 1
    requires forall k :: 0 <= k < |ls| ==> '\n' !in ls[k]
    ensures Lines(JoinLines(ls)) == ls
  {
    var last := ls[|ls| - 1];
    if |ls| == 1 {
      assert LastIndexOf(last, '\n', |last| - 1) < 0;
    } else {
      var init := ls[..|ls| - 1];
      LinesOfJoinLines(init);
      LinesAppendLast(JoinLines(init), last);
      assert ls == init + [last];
    }
  }

  /** Joining two non-empty runs of lines puts a single '\n' between them. */
  lemma {:induction false} JoinLinesAppend(a: seq<string>, b: seq<string>)
    requires |a| >= 1 && |b| >= 1
    ensures JoinLines(a + b) == JoinLines(a) + "\n" + JoinLines(b)
    decreases |b|
  {
    var ab := a + b;
    assert ab[|ab| - 1] == b[|b| - 1];
    if |b| == 1 {
      assert ab[..|ab| - 1] == a;
    } else {
      var b' := b[..|b| - 1];
      assert ab[..|ab| - 1] == a + b';
      JoinLinesAppend(a, b');
    }
  }

  /**
   * Where line `k` (0-based) of `lines` starts in their joined text: the
   * lengths of the lines before it, each with its separator.
   */
  function LineOffset(lines: seq<string>, k: nat): nat
    requires k <= |lines|
  {
    if k == 0 then 0 else LineOffset(lines, k - 1) + |lines[k - 1]| + 1
  }

  /** Lines added after line `k` do not move it. */
  lemma {:induction false} LineOffsetPrefix(lines: seq<string>, more: seq<string>, k: nat)
    requires k <= |lines|
    ensures LineOffset(lines + more, k) == LineOffset(lines, k)
  {
    if k > 0 {
      LineOffsetPrefix(lines, more, k - 1);
      assert (lines + more)[k - 1] == lines[k - 1];
    }
  }

  /** One past the end of all the lines is one past the end of their joined text. */
  lemma {:induction false} LineOffsetEnd(lines: seq<string>)
    requires |lines| >= 1
    ensures LineOffset(lines, |lines|) == |JoinLines(lines)| + 1
  {
    if |lines| > 1 {
      var init := lines[..|lines| - 1];
      LineOffsetEnd(init);
      assert lines == init + [lines[|lines| - 1]];
      LineOffsetPrefix(init, [lines[|lines| - 1]], |init|);
    }
  }

  /**
   * The part of `s` after its last `c`; all of `s` when it holds no `c`
   * (Kotlin's `substringAfterLast(c)`).
   */
  function AfterLast(s: string, c: char): (r: string)
    ensures c !in r
    ensures |r| <= |s| && r == s[|s| - |r|..]
  {
    if |s| == 0 then ""
    else if s[|s| - 1] == c then ""
    else AfterLast(s[..|s| - 1], c) + [s[|s| - 1]]
  }

  /** Text holding no `c`, appended to `a`, is appended to what follows `a`'s last `c`. */
  lemma {:induction false} AfterLastAppend(a: string, c: char, b: string)
    requires c !in b
    ensures AfterLast(a + b, c) == AfterLast(a, c) + b
  {
    if |b| > 0 {
      var b' := b[..|b| - 1];
      assert (a + b)[..|a + b| - 1] == a + b';
      AfterLastAppend(a, c, b');
    } else {
      assert a + b == a;
    }
  }

  /** `File(path).name`: the part after the last '/'. */
  function FileName(path: string): (name: string)
    ensures '/' !in name
    ensures |name| <= |path| && name == path[|path| - |name|..]
  {
    AfterLast(path, '/')
  }

  /** `File(path).extension`: the part of the name after its last '.', or "" when there is none. */
  function Extension(path: string): (ext: string)
    ensures '.' !in ext && '/' !in ext
  {
    var name := FileName(path);
    if '.' in name then AfterLast(name, '.') else ""
  }

  /** Whatever follows the last `c` of `a + ([c] + b)`, when `b` holds no `c`, is `b`. */
  lemma AfterLastSeparator(a: string, c: char, b: string)
    requires c !in b
    ensures AfterLast(a + ([c] + b), c) == b
  {
    var front := a + [c];
    assert front[|front| - 1] == c;
    AfterLastAppend(front, c, b);
    assert front + b == a + ([c] + b);
  }

  /** Appending "." and an extension to any stem makes that the file's extension. */
  lemma ExtensionOf(stem: string, ext: string)
    requires '.' !in ext && '/' !in ext
    ensures Extension(stem + "." + ext) == ext
  {
    var front := AfterLast(stem, '/');
    var tail := ['.'] + ext;
    var name := front + tail;
    assert FileName(stem + "." + ext) == name by {
      assert stem + "." + ext == stem + tail;
      AfterLastAppend(stem, '/', tail);
    }
    assert '.' in name by {
      assert name[|front|] == '.';
    }
    AfterLastSeparator(front, '.', ext);
  }

  /**
   * Kotlin's `s.replace(from, to)`: every occurrence of `from`, found left to
   * right without overlapping and never inside text already substituted, is
   * replaced by `to`.
   */
  function Replace(s: string, from: string, to: string): (r: string)
    requires |from| > 0
    decreases |s|
  {
    if s == [] then []
    else if from <= s then to + Replace(s[|from|..], from, to)
    else [s[0]] + Replace(s[1..], from, to)
  }

  /** Replacing a single character acts on each character separately, so it distributes over concatenation. */
  lemma {:induction false} ReplaceCharAppend(a: string, b: string, c: char, to: string)
    ensures Replace(a + b, [c], to) == Replace(a, [c], to) + Replace(b, [c], to)
  {
    if a != [] {
      assert (a + b)[1..] == a[1..] + b;
      assert [c] <= a + b <==> [c] <= a;
      ReplaceCharAppend(a[1..], b, c, to);
    } else {
      assert a + b == b;
    }
  }

  /** Text in which the searched string cannot even start is left unchanged. */
  lemma {:induction false} ReplaceAbsent(s: string, from: string, to: string)
    requires |from| > 0 && from[0] !in s
    ensures Replace(s, from, to) == s
    decreases |s|
  {
    if s != [] {
      assert s[0] != from[0];
      assert !(from <= s);
      assert s == [s[0]] + s[1..];
      ReplaceAbsent(s[1..], from, to);
    }
  }

  /** An occurrence at the front is replaced, and the search resumes after it. */
  lemma ReplaceFound(from: string, rest: string, to: string)
    requires |from| > 0
    ensures Replace(from + rest, from, to) == to + Replace(rest, from, to)
  {
    assert from <= from + rest;
    assert (from + rest)[|from|..] == rest;
  }

  /** Text in which the searched string cannot start is copied, and the search goes on after it. */
  lemma {:induction false} ReplaceSkip(a: string, rest: string, from: string, to: string)
    requires |from| > 0 && from[0] !in a
    ensures Replace(a + rest, from, to) == a + Replace(rest, from, to)
    decreases |a|
  {
    if a != [] {
      assert (a + rest)[0] == a[0];
      assert !(from <= a + rest);
      assert (a + rest)[1..] == a[1..] + rest;
      ReplaceSkip(a[1..], rest, from, to);
    } else {
      assert a + rest == rest;
    }
  }

  /** A front that is not an occurrence is copied one character at a time. */
  lemma ReplaceMiss(c: char, rest: string, from: string, to: string)
    requires |from| > 0 && !(from <= [c] + rest)
    ensures Replace([c] + rest, from, to) == [c] + Replace(rest, from, to)
  {
    assert ([c] + rest)[1..] == rest;
  }

  /**
   * `Paths.get(dir, child).toString()` on a Unix file system, for a relative
   * `child`: the two joined by exactly one separator (an empty `dir` adds none).
   */
  function PathJoin(dir: string, child: string): (path: string)
    ensures dir <= path
    ensures |path| >= |child| && path[|path| - |child|..] == child
    ensures dir != [] ==> path[|dir| - 1] == '/' || (|path| > |dir| && path[|dir|] == '/')
  {
    if dir == [] || dir[|dir| - 1] == '/' then dir + child
    else dir + "/" + child
  }
}
