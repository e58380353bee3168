/** `get_untracked_files` (main.py lines 190-218). The directory walk is an
    input: one entry per directory `os.walk(".")` visits, with its root as
    `os.walk` yields it and the relative paths of its files as `relpath`
    computes them. */
module Untracked {
  import opened Sequences
  import opened FileSystem
  import opened Ignore
  import opened Layout

  datatype WalkEntry = WalkEntry(root: string, paths: seq<Path>)

  /** A walked file that is reported: not ignored and not in the index. */
  predicate IsUntracked(p: Path, tracked: set<Path>, patterns: seq<string>) {
    !IsIgnored(p, patterns) && p !in tracked
  }

  /** The files one turn of the inner loop appends: `p` itself when it is
      untracked, nothing otherwise. */
  function KeepUntracked(tracked: set<Path>, patterns: seq<string>): Path -> seq<Path> {
    p => if IsUntracked(p, tracked, patterns) then [p] else []
  }

  /** The reported files among `paths`, in their order. */
  function UntrackedIn(paths: seq<Path>, tracked: set<Path>, patterns: seq<string>): seq<Path> {
    FlatMap(KeepUntracked(tracked, patterns), paths)
  }

  /** Whether the walk skips an entry: its root is compared literally with
      ".gitLite", although `os.walk(".")` yields "./.gitLite". */
  predicate SkipsRoot(e: WalkEntry) {
    e.root == GitliteDir
  }

  /** The reported files of one walked directory: none when its root is
      skipped. */
  function DirUntracked(tracked: set<Path>, patterns: seq<string>): WalkEntry -> seq<Path> {
    e => if SkipsRoot(e) then [] else UntrackedIn(e.paths, tracked, patterns)
  }

  /** The reported files of a whole walk, in walk order. */
  function UntrackedOf(walk: seq<WalkEntry>, tracked: set<Path>, patterns: seq<string>): seq<Path> {
    FlatMap(DirUntracked(tracked, patterns), walk)
  }

  /** The nested loops of `get_untracked_files`, given the index keys and the
      ignore patterns. */
  method GetUntracked(walk: seq<WalkEntry>, tracked: set<Path>, patterns: seq<string>) returns (untracked: seq<Path>)
    ensures untracked == UntrackedOf(walk, tracked, patterns)
  {
    untracked := [];
    var i := 0;
    while i < |walk|
      invariant 0 <= i <= |walk|
      invariant untracked == UntrackedOf(walk[..i], tracked, patterns)
    {
      var e := walk[i];
      assert walk[..i + 1][..i] == walk[..i] && walk[..i + 1][i] == e;
      ghost var done := untracked;
      if !SkipsRoot(e) {
        var j := 0;
        while j < |e.paths|
          invariant 0 <= j <= |e.paths|
          invariant untracked == done + UntrackedIn(e.paths[..j], tracked, patterns)
        {
          var p := e.paths[j];
          assert e.paths[..j + 1][..j] == e.paths[..j] && e.paths[..j + 1][j] == p;
          ghost var before := UntrackedIn(e.paths[..j], tracked, patterns);
          if !IsIgnored(p, patterns) && p !in tracked {
            untracked := untracked + [p];
            assert untracked == done + (before + [p]);
          }
          j := j + 1;
        }
        assert e.paths[..j] == e.paths;
      }
      i := i + 1;
    }
    assert walk[..i] == walk;
  }

  /** Within one directory the filter keeps the order of the files. */
  lemma UntrackedInAppend(a: seq<Path>, b: seq<Path>, tracked: set<Path>, patterns: seq<string>)
    ensures UntrackedIn(a + b, tracked, patterns) == UntrackedIn(a, tracked, patterns) + UntrackedIn(b, tracked, patterns)
  {
    FlatMapAppend(KeepUntracked(tracked, patterns), a, b);
  }

  /** The walk's result distributes over concatenation of walks: the files of
      an earlier directory come before those of a later one. */
  lemma UntrackedOfAppend(a: seq<WalkEntry>, b: seq<WalkEntry>, tracked: set<Path>, patterns: seq<string>)
    ensures UntrackedOf(a + b, tracked, patterns) == UntrackedOf(a, tracked, patterns) + UntrackedOf(b, tracked, patterns)
  {
    FlatMapAppend(DirUntracked(tracked, patterns), a, b);
  }

  lemma UntrackedInMembership(paths: seq<Path>, tracked: set<Path>, patterns: seq<string>, p: Path)
    ensures p in UntrackedIn(paths, tracked, patterns) <==> p in paths && IsUntracked(p, tracked, patterns)
  {
    var f := KeepUntracked(tracked, patterns);
    FlatMapMembership(f, paths, p);
    if p in paths && IsUntracked(p, tracked, patterns) {
      var i :| 0 <= i < |paths| && paths[i] == p;
      assert p in f(paths[i]);
    }
  }

  /** `p` is a file of some walked directory whose root is not skipped. */
  predicate ListedBy(walk: seq<WalkEntry>, p: Path) {
    exists i :: 0 <= i < |walk| && !SkipsRoot(walk[i]) && p in walk[i].paths
  }

  /** Every reported path is neither in the index nor ignored, and every file
      of a directory whose root is not literally ".gitLite" that is neither is
      reported. */
  lemma UntrackedOfMembership(walk: seq<WalkEntry>, tracked: set<Path>, patterns: seq<string>, p: Path)
    ensures p in UntrackedOf(walk, tracked, patterns)
      <==> IsUntracked(p, tracked, patterns) && ListedBy(walk, p)
  {
    var f := DirUntracked(tracked, patterns);
    FlatMapMembership(f, walk, p);
    forall i | 0 <= i < |walk|
      ensures p in f(walk[i]) <==> !SkipsRoot(walk[i]) && p in walk[i].paths && IsUntracked(p, tracked, patterns)
    {
      UntrackedInMembership(walk[i].paths, tracked, patterns, p);
    }
  }

  /** The directory `os.walk(".")` visits for the repository has the root
      "./.gitLite", so its files are listed like any others. */
  lemma RepositoryFilesAreListed(paths: seq<Path>)
    ensures UntrackedOf([WalkEntry("./.gitLite", paths)], {}, []) == paths
  {
    var e := WalkEntry("./.gitLite", paths);
    var f := DirUntracked({}, []);
    assert [e][..0] == [] && [e][0] == e;
    assert FlatMap(f, [e]) == FlatMap(f, []) + f(e);
    assert !SkipsRoot(e) by {
      assert |"./.gitLite"| != |GitliteDir|;
    }
    UnfilteredPaths(paths);
  }

  /** With no index entries and no patterns, every file is reported. */
  lemma {:induction false} UnfilteredPaths(paths: seq<Path>)
    ensures UntrackedIn(paths, {}, []) == paths
    decreases |paths|
  {
    if paths != [] {
      var init, last := paths[..|paths| - 1], paths[|paths| - 1];
      UnfilteredPaths(init);
      assert KeepUntracked({}, [])(last) == [last];
      assert paths == init + [last];
    }
  }
}
