/** The loop of `add` over the requested paths and the index it produces.
    `Staged` is the reference: the loop body applied to each path in turn. The
    lemmas below say what that index is: rejected and unnamed paths keep their
    entry (or its absence), accepted paths map to the hash of their current
    content, and staging the same paths again changes nothing. */
module Staging {
  import opened Sequences
  import opened FileSystem
  import opened Ignore
  import opened Hashing

  /** The staging area: path to the hash last staged for it. */
  type Index = map<Path, Digest>

  /** What `add` reports for one path, its console messages reduced to a tag.
      `Modified` is the "has been modified, updating" branch; `Quiet` is every
      other staged path, including new ones, for which nothing is printed. */
  datatype Notice = Missing | IsDirectory | Ignored | Modified | Quiet

  /** A path `add` goes on to hash: it exists, is not a directory and starts
      with no ignore pattern. */
  predicate Accepted(fs: FileSystem, patterns: seq<string>, p: Path) {
    p in fs && fs[p].File? && !IsIgnored(p, patterns)
  }

  /** The notice for `p` given the index at the moment it is handled. */
  function NoticeFor(index: Index, fs: FileSystem, patterns: seq<string>, sha1: Sha1, p: Path): Notice {
    if p !in fs then Missing
    else if fs[p].Dir? then IsDirectory
    else if IsIgnored(p, patterns) then Ignored
    else if p in index && index[p] != sha1(fs[p].content) then Modified
    else Quiet
  }

  /** One turn of the loop: an upsert for an accepted path, nothing otherwise. */
  function StageOne(index: Index, fs: FileSystem, patterns: seq<string>, sha1: Sha1, p: Path): Index {
    if Accepted(fs, patterns, p) then index[p := sha1(fs[p].content)] else index
  }

  /** The index after the loop has handled `files`, in order. */
  function Staged(index: Index, fs: FileSystem, patterns: seq<string>, sha1: Sha1, files: seq<Path>): Index
    decreases |files|
  {
    if files == [] then index
    else Staged(StageOne(index, fs, patterns, sha1, files[0]), fs, patterns, sha1, files[1..])
  }

  /** The notices of the loop, one per requested path, in order. */
  function Notices(index: Index, fs: FileSystem, patterns: seq<string>, sha1: Sha1, files: seq<Path>): (notices: seq<Notice>)
    ensures |notices| == |files|
    decreases |files|
  {
    if files == [] then []
    else
      var rest := Notices(StageOne(index, fs, patterns, sha1, files[0]), fs, patterns, sha1, files[1..]);
      [NoticeFor(index, fs, patterns, sha1, files[0])] + rest
  }

  /** One turn of the loop, read off the reference functions. */
  lemma LoopStep(index: Index, fs: FileSystem, patterns: seq<string>, sha1: Sha1, files: seq<Path>, i: nat)
    requires i < |files|
    ensures var next := StageOne(index, fs, patterns, sha1, files[i]);
      && Staged(index, fs, patterns, sha1, files[i..]) == Staged(next, fs, patterns, sha1, files[i + 1..])
      && Notices(index, fs, patterns, sha1, files[i..])
        == [NoticeFor(index, fs, patterns, sha1, files[i])] + Notices(next, fs, patterns, sha1, files[i + 1..])
  {
    assert files[i..][0] == files[i] && files[i..][1..] == files[i + 1..];
  }

  /** The body of the loop of `add` for one path (main.py lines 100-127):
      the three checks, then the hash and the upsert. */
  method StagePath(index: Index, fs: FileSystem, patterns: seq<string>, sha1: Sha1, p: Path)
    returns (next: Index, notice: Notice)
    ensures next == StageOne(index, fs, patterns, sha1, p)
    ensures notice == NoticeFor(index, fs, patterns, sha1, p)
  {
    next := index;
    if p !in fs {
      return next, Missing;
    }
    if fs[p].Dir? {
      return next, IsDirectory;
    }
    if IsIgnored(p, patterns) {
      return next, Ignored;
    }
    var h, _ := HashFile(fs[p].content, sha1);
    if p in next && next[p] != h {
      notice := Modified;
      next := next[p := h];
    } else {
      notice := Quiet;
    }
    next := next[p := h];
  }

  /** The loop of `add` (main.py lines 99-127), on the loaded index. The
      filesystem does not change while it runs. */
  method StageFiles(index: Index, fs: FileSystem, patterns: seq<string>, sha1: Sha1, files: seq<Path>)
    returns (staged: Index, notices: seq<Notice>)
    ensures staged == Staged(index, fs, patterns, sha1, files)
    ensures notices == Notices(index, fs, patterns, sha1, files)
  {
    staged, notices := index, [];
    var i := 0;
    assert files[i..] == files;
    while i < |files|
      invariant 0 <= i <= |files|
      invariant Staged(staged, fs, patterns, sha1, files[i..]) == Staged(index, fs, patterns, sha1, files)
      invariant notices + Notices(staged, fs, patterns, sha1, files[i..]) == Notices(index, fs, patterns, sha1, files)
    {
      LoopStep(staged, fs, patterns, sha1, files, i);
      ghost var done := notices;
      var notice;
      staged, notice := StagePath(staged, fs, patterns, sha1, files[i]);
      notices := notices + [notice];
      ghost var later := Notices(staged, fs, patterns, sha1, files[i + 1..]);
      assert notices + later == done + ([notice] + later);
      i := i + 1;
    }
    assert files[i..] == [];
  }

  /** The entry of every path after staging: present exactly when it was
      present before or was named and accepted; the hash of its content when
      named and accepted, its old entry otherwise. */
  lemma {:induction false} StagedEntry(index: Index, fs: FileSystem, patterns: seq<string>, sha1: Sha1, files: seq<Path>, p: Path)
    ensures var s := Staged(index, fs, patterns, sha1, files);
      && (p in s <==> p in index || (p in files && Accepted(fs, patterns, p)))
      && (p in s && p in files && Accepted(fs, patterns, p) ==> s[p] == sha1(fs[p].content))
      && (p in s && !(p in files && Accepted(fs, patterns, p)) ==> s[p] == index[p])
    decreases |files|
  {
    if files != [] {
      var next := StageOne(index, fs, patterns, sha1, files[0]);
      StagedEntry(next, fs, patterns, sha1, files[1..], p);
      assert p in files <==> p == files[0] || p in files[1..] by {
        assert files == [files[0]] + files[1..];
      }
    }
  }

  /** A path that does not exist, is a directory or is ignored keeps its
      entry, whether it had one or not. */
  lemma StagedSkipsRejected(index: Index, fs: FileSystem, patterns: seq<string>, sha1: Sha1, files: seq<Path>, p: Path)
    requires p !in fs || fs[p].Dir? || IsIgnored(p, patterns)
    ensures var s := Staged(index, fs, patterns, sha1, files);
      (p in s <==> p in index) && (p in index ==> s[p] == index[p])
  {
    StagedEntry(index, fs, patterns, sha1, files, p);
  }

  /** A named path that is accepted ends up mapped to the hash of its current
      content, whether it was unstaged, staged with that hash or staged with
      another. */
  lemma StagedRecordsAccepted(index: Index, fs: FileSystem, patterns: seq<string>, sha1: Sha1, files: seq<Path>, p: Path)
    requires p in files && Accepted(fs, patterns, p)
    ensures var s := Staged(index, fs, patterns, sha1, files);
      p in s && s[p] == sha1(fs[p].content)
  {
    StagedEntry(index, fs, patterns, sha1, files, p);
  }

  /** Paths not named keep their entries, and the domain grows by exactly the
      accepted paths. */
  lemma StagedFrame(index: Index, fs: FileSystem, patterns: seq<string>, sha1: Sha1, files: seq<Path>)
    ensures var s := Staged(index, fs, patterns, sha1, files);
      && s.Keys == index.Keys + set p | p in files && Accepted(fs, patterns, p)
      && forall p :: p in index && p !in files ==> p in s && s[p] == index[p]
  {
    var s := Staged(index, fs, patterns, sha1, files);
    forall p | p in s.Keys || p in index.Keys + set q | q in files && Accepted(fs, patterns, q)
      ensures (p in s.Keys <==> p in index.Keys + set q | q in files && Accepted(fs, patterns, q))
    {
      StagedEntry(index, fs, patterns, sha1, files, p);
    }
    forall p | p in index && p !in files ensures p in s && s[p] == index[p] {
      StagedEntry(index, fs, patterns, sha1, files, p);
    }
  }

  /** Staging the same paths twice on an unchanged filesystem gives the index
      that staging them once gives. */
  lemma StagedIdempotent(index: Index, fs: FileSystem, patterns: seq<string>, sha1: Sha1, files: seq<Path>)
    ensures var once := Staged(index, fs, patterns, sha1, files);
      Staged(once, fs, patterns, sha1, files) == once
  {
    var once := Staged(index, fs, patterns, sha1, files);
    var twice := Staged(once, fs, patterns, sha1, files);
    forall p | p in once || p in twice ensures p in once && p in twice && twice[p] == once[p] {
      StagedEntry(index, fs, patterns, sha1, files, p);
      StagedEntry(once, fs, patterns, sha1, files, p);
    }
  }

  /** The notice of the `i`-th path is computed against the index left by the
      paths before it. */
  lemma {:induction false} NoticesAt(index: Index, fs: FileSystem, patterns: seq<string>, sha1: Sha1, files: seq<Path>, i: nat)
    requires i < |files|
    ensures |Notices(index, fs, patterns, sha1, files)| == |files|
    ensures Notices(index, fs, patterns, sha1, files)[i]
      == NoticeFor(Staged(index, fs, patterns, sha1, files[..i]), fs, patterns, sha1, files[i])
    decreases |files|
  {
    var next := StageOne(index, fs, patterns, sha1, files[0]);
    if i == 0 {
      if |files| > 1 {
        NoticesAt(next, fs, patterns, sha1, files[1..], 0);
      } else {
        assert files[1..] == [];
      }
      assert files[..0] == [];
    } else {
      NoticesAt(next, fs, patterns, sha1, files[1..], i - 1);
      assert files[1..][..i - 1] == files[..i][1..];
      assert files[..i][0] == files[0];
      assert files[1..][i - 1] == files[i];
    }
  }

  /** `add` reports a path as modified exactly when it is accepted, was
      already in the loaded index with a different hash, and is not a repeat
      of a path handled earlier in the same call. */
  lemma ModifiedNotice(index: Index, fs: FileSystem, patterns: seq<string>, sha1: Sha1, files: seq<Path>, i: nat)
    requires i < |files|
    ensures (Notices(index, fs, patterns, sha1, files)[i] == Modified)
        == (&& Accepted(fs, patterns, files[i]) && files[i] !in files[..i]
            && files[i] in index && index[files[i]] != sha1(fs[files[i]].content))
  {
    NoticesAt(index, fs, patterns, sha1, files, i);
    StagedEntry(index, fs, patterns, sha1, files[..i], files[i]);
  }
}
