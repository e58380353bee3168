/** The `.gitLiteignore` reader and the literal ignore-prefix test
    (main.py: `read_gitliteignore` and the `any(startswith ...)` tests of
    `add` and `get_untracked_files`). */
module Ignore {
  import opened Wrappers
  import opened Sequences
  import opened FileSystem

  const IgnoreFile: Path := ".gitLiteignore"

  /** Python's `str.isspace` on one character: the characters `str.strip()`
      removes when called without arguments. */
  predicate IsSpace(c: char) {
    var n := c as int;
    || (0x09 <= n <= 0x0d) || (0x1c <= n <= 0x20) || n == 0x85 || n == 0xa0
    || n == 0x1680 || (0x2000 <= n <= 0x200a) || n == 0x2028 || n == 0x2029
    || n == 0x202f || n == 0x205f || n == 0x3000
  }

  /** Text made of whitespace only (the empty text included). */
  predicate Blank(s: string) {
    forall i :: 0 <= i < |s| ==> IsSpace(s[i])
  }

  /** Drops the longest run of whitespace at the front. */
  function TrimStart(s: string): (r: string)
    ensures |r| <= |s| && r == s[|s| - |r|..]
    ensures r == [] || !IsSpace(r[0])
    ensures Blank(s[..|s| - |r|])
    decreases |s|
  {
    if s != [] && IsSpace(s[0]) then
      var r := TrimStart(s[1..]);
      BlankCons(s, |s| - 1 - |r|);
      r
    else s
  }

  /** Drops the longest run of whitespace at the back. */
  function TrimEnd(s: string): (r: string)
    ensures |r| <= |s| && r == s[..|r|]
    ensures r == [] || !IsSpace(r[|r| - 1])
    ensures Blank(s[|r|..])
    decreases |s|
  {
    if s != [] && IsSpace(s[|s| - 1]) then
      var r := TrimEnd(s[..|s| - 1]);
      BlankSnoc(s, |r|);
      r
    else s
  }

  /** A blank run after a leading space stays blank with the space. */
  lemma BlankCons(s: string, k: nat)
    requires s != [] && IsSpace(s[0]) && k < |s| && Blank(s[1..][..k])
    ensures Blank(s[..k + 1])
  {
    var t, u := s[..k + 1], s[1..][..k];
    forall i | 0 <= i < |t| ensures IsSpace(t[i]) {
      if i > 0 {
        assert t[i] == u[i - 1];
      }
    }
  }

  /** A blank run before a trailing space stays blank with the space. */
  lemma BlankSnoc(s: string, k: nat)
    requires s != [] && IsSpace(s[|s| - 1]) && k < |s| && Blank(s[..|s| - 1][k..])
    ensures Blank(s[k..])
  {
    var t, u := s[k..], s[..|s| - 1][k..];
    forall i | 0 <= i < |t| ensures IsSpace(t[i]) {
      if i < |u| {
        assert t[i] == u[i];
      }
    }
  }

  /** Text that is not empty and neither starts nor ends with whitespace. */
  predicate Unpadded(s: string) {
    s != [] && !IsSpace(s[0]) && !IsSpace(s[|s| - 1])
  }

  /** Python's `str.strip()`: `TrimStart` then `TrimEnd`. Blank text strips
      to the empty string, and anything else to text that neither starts nor
      ends with whitespace. */
  function Strip(s: string): (r: string)
    ensures r == [] || Unpadded(r)
    ensures r == [] <==> Blank(s)
  {
    TrimEnd(TrimStart(s))
  }

  /** A line as `readlines` returns it: non-empty, with no newline except
      possibly as its last character. */
  predicate IsLine(l: string) {
    l != [] && forall k :: 0 <= k < |l| - 1 ==> l[k] != '\n'
  }

  predicate EndsWithNewline(l: string) {
    l != [] && l[|l| - 1] == '\n'
  }

  /** Length of the first line of `s`, its terminating newline included. */
  function LineLength(s: string): (n: nat)
    requires s != []
    ensures 0 < n <= |s| && IsLine(s[..n])
    ensures n < |s| ==> s[n - 1] == '\n'
    decreases |s|
  {
    if s[0] == '\n' || |s| == 1 then 1 else 1 + LineLength(s[1..])
  }

  /** Python's `f.readlines()` on text: the text cut after every newline.
      The lines concatenate back to the text, and every line but the last
      ends with its newline. */
  function ReadLines(s: string): (lines: seq<string>)
    ensures Concat(lines) == s
    ensures forall i :: 0 <= i < |lines| ==> IsLine(lines[i])
    ensures forall i :: 0 <= i < |lines| - 1 ==> EndsWithNewline(lines[i])
    decreases |s|
  {
    if s == [] then []
    else
      var n := LineLength(s);
      var rest := ReadLines(s[n..]);
      assert s == s[..n] + s[n..];
      [s[..n]] + rest
  }

  /** The condition of the comprehension: the stripped line is not blank, and
      the RAW line does not start with "#". */
  predicate KeepsLine(line: string) {
    Strip(line) != [] && !StartsWith(line, "#")
  }

  /** `[line.strip() for line in lines if line.strip() and not line.startswith("#")]`. */
  function KeepLines(lines: seq<string>): (patterns: seq<string>)
    ensures |patterns| <= |lines|
    ensures forall i :: 0 <= i < |patterns| ==> Unpadded(patterns[i])
    decreases |lines|
  {
    if lines == [] then []
    else
      var rest := KeepLines(lines[1..]);
      if KeepsLine(lines[0]) then
        var head := Strip(lines[0]);
        assert forall i :: 0 < i < |[head] + rest| ==> ([head] + rest)[i] == rest[i - 1];
        [head] + rest
      else rest
  }

  /** The ignore patterns of the text of a `.gitLiteignore` file. */
  function IgnorePatterns(text: string): seq<string> {
    KeepLines(ReadLines(text))
  }

  /** `read_gitliteignore()` on the filesystem: `[]` when the file is absent,
      the exception of `open` when it is a directory. */
  function ReadGitliteignore(fs: FileSystem): (r: Result<seq<string>, Failure>)
    ensures IgnoreFile !in fs ==> r == Ok([])
    ensures IgnoreFile in fs && fs[IgnoreFile].Dir? ==> r == Err(IsADirectory(IgnoreFile))
    ensures IgnoreFile in fs && fs[IgnoreFile].File? ==>
      r == Ok(IgnorePatterns(ReadText(fs[IgnoreFile].content)))
  {
    if IgnoreFile !in fs then Ok([])
    else match ReadFile(fs, IgnoreFile)
      case Err(e) => Err(e)
      case Ok(b) => Ok(IgnorePatterns(ReadText(b)))
  }

  /** `any([path.startswith(p) for p in patterns])`. */
  predicate IsIgnored(path: Path, patterns: seq<string>)
    decreases |patterns|
  {
    patterns != [] && (StartsWith(path, patterns[0]) || IsIgnored(path, patterns[1..]))
  }

  /** A path is ignored exactly when it starts with one of the patterns. */
  lemma {:induction false} IgnoredByPrefix(path: Path, patterns: seq<string>)
    ensures IsIgnored(path, patterns) <==> exists i :: 0 <= i < |patterns| && StartsWith(path, patterns[i])
    decreases |patterns|
  {
    if patterns != [] {
      IgnoredByPrefix(path, patterns[1..]);
      assert forall i :: 0 < i < |patterns| ==> patterns[1..][i - 1] == patterns[i];
    }
  }

  /** The filter distributes over concatenation: the kept lines of a file are
      the kept lines of its first part followed by those of the rest, so the
      patterns come out in file order. */
  lemma {:induction false} KeepLinesAppend(a: seq<string>, b: seq<string>)
    ensures KeepLines(a + b) == KeepLines(a) + KeepLines(b)
    decreases |a|
  {
    if a == [] {
      assert a + b == b;
    } else {
      assert (a + b)[1..] == a[1..] + b;
      KeepLinesAppend(a[1..], b);
    }
  }

  /** A line that gives the pattern `q`. */
  predicate Yields(line: string, q: string) {
    KeepsLine(line) && Strip(line) == q
  }

  /** A pattern is kept exactly when some line strips to it, is not blank and
      does not start with "#" before stripping. */
  lemma {:induction false} KeepLinesMembership(lines: seq<string>, q: string)
    ensures q in KeepLines(lines) <==> exists i :: 0 <= i < |lines| && Yields(lines[i], q)
    decreases |lines|
  {
    if lines != [] {
      var tail := lines[1..];
      var head := if KeepsLine(lines[0]) then [Strip(lines[0])] else [];
      var rest := KeepLines(tail);
      KeepLinesMembership(tail, q);
      assert KeepLines(lines) == head + rest;
      assert q in head + rest <==> q in head || q in rest;
      assert q in head <==> Yields(lines[0], q);
      ExistsInTail(lines, q);
    }
  }

  /** Some line yields `q` exactly when the first one does or some later one
      does. */
  lemma ExistsInTail(lines: seq<string>, q: string)
    requires lines != []
    ensures (exists i :: 0 <= i < |lines| && Yields(lines[i], q))
        <==> Yields(lines[0], q) || exists i :: 0 <= i < |lines[1..]| && Yields(lines[1..][i], q)
  {
    var tail := lines[1..];
    if exists i :: 0 <= i < |tail| && Yields(tail[i], q) {
      var i :| 0 <= i < |tail| && Yields(tail[i], q);
      assert lines[i + 1] == tail[i];
    }
    if exists i :: 0 <= i < |lines| && Yields(lines[i], q) {
      var i :| 0 <= i < |lines| && Yields(lines[i], q);
      if i > 0 {
        assert tail[i - 1] == lines[i];
      }
    }
  }

  /** The patterns of a text are those of its first line followed by those
      of the remaining lines. */
  lemma PatternsOfFirstLine(w: string, rest: string)
    requires '\n' !in w
    ensures IgnorePatterns(w + "\n" + rest) == KeepLines([w + "\n"]) + IgnorePatterns(rest)
  {
    FirstLine(w, rest);
    KeepLinesAppend([w + "\n"], ReadLines(rest));
  }

  /** A commented line survives when it is indented: its raw text does not
      start with "#", so " # x" gives the pattern "# x". */
  lemma IndentedCommentIsKept(w: string, rest: string)
    requires '\n' !in w && Unpadded(w)
    ensures IgnorePatterns(" " + w + "\n" + rest) == [w] + IgnorePatterns(rest)
  {
    assert '\n' !in " " + w;
    PatternsOfFirstLine(" " + w, rest);
    assert " " + w + "\n" == " " + (w + "\n");
    IndentedLine(w);
    KeepOne(" " + (w + "\n"));
  }

  /** The line " w\n" is kept, and strips to w. */
  lemma IndentedLine(w: string)
    requires Unpadded(w)
    ensures KeepsLine(" " + (w + "\n")) && Strip(" " + (w + "\n")) == w
  {
    StripIgnoresLeadingSpace(w + "\n");
    StripUnpadded(w);
    NotStartsWithHash(" " + (w + "\n"));
  }

  lemma NotStartsWithHash(l: string)
    requires l != [] && l[0] != '#'
    ensures !StartsWith(l, "#")
  {
    assert l[..1] != "#" by {
      assert l[..1][0] == l[0];
    }
  }

  /** A line whose first character is "#" gives no pattern. */
  lemma CommentIsDropped(w: string, rest: string)
    requires '\n' !in w
    ensures IgnorePatterns("#" + w + "\n" + rest) == IgnorePatterns(rest)
  {
    var l := "#" + w + "\n";
    assert '\n' !in "#" + w;
    PatternsOfFirstLine("#" + w, rest);
    assert "#" + w + "\n" + rest == ("#" + w) + "\n" + rest;
    KeepOne(l);
    assert l[..1] == "#";
  }

  /** A line of whitespace gives no pattern. */
  lemma BlankLineIsDropped(w: string, rest: string)
    requires '\n' !in w && Blank(w)
    ensures IgnorePatterns(w + "\n" + rest) == IgnorePatterns(rest)
  {
    PatternsOfFirstLine(w, rest);
    KeepOne(w + "\n");
    assert forall i :: 0 <= i < |w + "\n"| ==> IsSpace((w + "\n")[i]) by {
      forall i | 0 <= i < |w + "\n"| ensures IsSpace((w + "\n")[i]) {
        if i < |w| { assert (w + "\n")[i] == w[i]; }
      }
    }
  }

  lemma KeepOne(l: string)
    ensures KeepLines([l]) == if KeepsLine(l) then [Strip(l)] else []
  {
    assert [l][1..] == [];
  }

  /** Text without surrounding whitespace strips to itself once a newline is
      appended. */
  lemma StripUnpadded(w: string)
    requires Unpadded(w)
    ensures Strip(w + "\n") == w
  {
    var l := w + "\n";
    assert l[0] == w[0];
    TrimStartUnpadded(l);
    assert l[..|l| - 1] == w && l[|l| - 1] == '\n';
    TrimEndDropsSpace(l);
    TrimEndUnpadded(w);
  }

  lemma TrimStartUnpadded(s: string)
    requires s != [] && !IsSpace(s[0])
    ensures TrimStart(s) == s
  {
  }

  lemma TrimEndUnpadded(s: string)
    requires s != [] && !IsSpace(s[|s| - 1])
    ensures TrimEnd(s) == s
  {
  }

  lemma TrimEndDropsSpace(s: string)
    requires s != [] && IsSpace(s[|s| - 1])
    ensures TrimEnd(s) == TrimEnd(s[..|s| - 1])
  {
  }

  /** Text without surrounding whitespace is its own stripped form. */
  lemma StripKeepsUnpadded(s: string)
    requires Unpadded(s)
    ensures Strip(s) == s
  {
    assert TrimStart(s) == s;
  }

  lemma StripIgnoresLeadingSpace(s: string)
    ensures Strip(" " + s) == Strip(s)
  {
    assert (" " + s)[1..] == s;
  }

  /** A newline-free prefix followed by a newline is read as one line. */
  lemma {:induction false} FirstLine(w: string, rest: string)
    requires '\n' !in w
    ensures ReadLines(w + "\n" + rest) == [w + "\n"] + ReadLines(rest)
  {
    var s := w + "\n" + rest;
    LineLengthOf(w, rest);
    assert s[..|w| + 1] == w + "\n";
    assert s[|w| + 1..] == rest;
  }

  lemma {:induction false} LineLengthOf(w: string, rest: string)
    requires '\n' !in w
    ensures LineLength(w + "\n" + rest) == |w| + 1
    decreases |w|
  {
    var s := w + "\n" + rest;
    if w != [] {
      assert w[0] in w;
      assert '\n' !in w[1..] by {
        assert forall c :: c in w[1..] ==> c in w;
      }
      LineLengthOf(w[1..], rest);
      assert s[1..] == w[1..] + "\n" + rest;
    }
  }
}
