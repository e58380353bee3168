/** The read-only checks of `status` (main.py lines 131-188): resolving HEAD
    through the "ref: " marker, and the per-file "modified" flag of staged
    paths. */
module Status {
  import opened Wrappers
  import opened Sequences
  import opened FileSystem
  import opened Ignore
  import opened Hashing
  import opened Layout
  import opened Staging

  const RefMarker: string := "ref: "

  /** HEAD, once stripped: a symbolic reference or something else. */
  datatype HeadRef = Symbolic(branch: string) | Invalid

  /** `head_ref.startswith("ref: ")` and `head_ref[5:]`. Exactly the texts
      carrying the marker are symbolic, and the branch is what follows it. */
  function ParseHead(text: string): (h: HeadRef)
    ensures h.Symbolic? <==> StartsWith(text, RefMarker)
    ensures h.Symbolic? ==> text == RefMarker + h.branch
  {
    if StartsWith(text, RefMarker) then Symbolic(text[|RefMarker|..]) else Invalid
  }

  /** `os.path.join(".gitLite", branch_ref)`: an absolute branch path
      replaces the directory. */
  function BranchRefPath(branch: string): (p: Path)
    ensures StartsWith(branch, "/") ==> p == branch
    ensures !StartsWith(branch, "/") ==> InRepository(p) && p[|GitliteDir| + 1..] == branch
  {
    if StartsWith(branch, "/") then branch else GitliteDir + "/" + branch
  }

  /** What `status` says about HEAD, its messages reduced to a tag. */
  datatype HeadReport = LastCommit(hash: string) | NoCommitsYet | HeadInvalid

  /** The HEAD part of `status`, once HEAD is known to exist. Opening HEAD or
      the branch file fails when it is a directory; nothing else can fail,
      since the branch file is opened only once it is known to exist. */
  function ReadHead(fs: FileSystem): (r: Result<HeadReport, Failure>)
    requires HeadPath in fs
    ensures fs[HeadPath].Dir? ==> r == Err(IsADirectory(HeadPath))
    ensures r.Err? ==> r.error.IsADirectory? && r.error.path in fs && fs[r.error.path].Dir?
  {
    match ReadFile(fs, HeadPath)
    case Err(e) => Err(e)
    case Ok(head) =>
      match ParseHead(Strip(ReadText(head)))
      case Invalid => Ok(HeadInvalid)
      case Symbolic(branch) =>
        var path := BranchRefPath(branch);
        if path !in fs then Ok(NoCommitsYet)
        else match ReadFile(fs, path)
          case Err(e) => Err(e)
          case Ok(commit) => Ok(LastCommit(Strip(ReadText(commit))))
  }

  /** The HEAD that `init` writes resolves to the branch "refs/heads/main". */
  lemma InitialHeadNamesMain()
    ensures ParseHead(Strip(ReadText(HeadContent()))) == Symbolic("refs/heads/main")
  {
    HeadTextReadsBack();
    HeadTextIsStripped();
    HeadTextParses();
  }

  lemma HeadTextReadsBack()
    ensures ReadText(HeadContent()) == HeadText
  {
    assert IsAscii(HeadText) && '\r' !in HeadText;
    AsciiTextRoundTrip(HeadText);
  }

  lemma HeadTextIsStripped()
    ensures Strip(HeadText) == HeadText
  {
    assert HeadText[0] == 'r' && HeadText[|HeadText| - 1] == 'n';
    StripKeepsUnpadded(HeadText);
  }

  lemma HeadTextParses()
    ensures ParseHead(HeadText) == Symbolic("refs/heads/main")
  {
    assert HeadText[..|RefMarker|] == RefMarker;
    assert HeadText[|RefMarker|..] == "refs/heads/main";
  }

  /** Right after `init` on a filesystem without `.gitLite`, `status` finds
      HEAD pointing at a branch that has no commits yet. */
  lemma InitReportsNoCommits(fs: FileSystem)
    requires WellFormed(fs) && GitliteDir !in fs
    ensures HeadPath in InitLayout(fs)
    ensures ReadHead(InitLayout(fs)) == Ok(NoCommitsYet)
  {
    var r := InitLayout(fs);
    assert r[HeadPath] == File(HeadContent());
    InitialHeadNamesMain();
    MainBranchAbsentAfterInit(fs);
    SymbolicHeadWithoutCommits(r, "refs/heads/main");
  }

  /** `init` does not create the branch file of "refs/heads/main". */
  lemma MainBranchAbsentAfterInit(fs: FileSystem)
    requires WellFormed(fs) && GitliteDir !in fs
    ensures BranchRefPath("refs/heads/main") !in InitLayout(fs)
  {
    MainBranchPath();
    var path := BranchRefPath("refs/heads/main");
    assert path !in fs;
    assert |path| != |GitliteDir| && |path| != |ObjectsDir| && |path| != |RefsParentDir|;
    assert |path| != |RefsDir| && |path| != |HeadPath|;
  }

  /** The branch file of "refs/heads/main" lies inside `.gitLite`. */
  lemma MainBranchPath()
    ensures InRepository(BranchRefPath("refs/heads/main"))
    ensures |BranchRefPath("refs/heads/main")| == 24
  {
    var b := "refs/heads/main";
    assert b[..1] == "r";
    var path := GitliteDir + "/" + b;
    assert path[..|GitliteDir + "/"|] == GitliteDir + "/";
  }

  /** A symbolic HEAD whose branch file does not exist reports no commits. */
  lemma SymbolicHeadWithoutCommits(fs: FileSystem, branch: string)
    requires HeadPath in fs && fs[HeadPath].File?
    requires ParseHead(Strip(ReadText(fs[HeadPath].content))) == Symbolic(branch)
    requires BranchRefPath(branch) !in fs
    ensures ReadHead(fs) == Ok(NoCommitsYet)
  {
  }

  /** A symbolic HEAD whose branch file exists reports the stripped content
      of that file as the last commit; a directory there raises. */
  lemma BranchFileReportsLastCommit(fs: FileSystem, branch: string)
    requires HeadPath in fs && fs[HeadPath].File?
    requires ParseHead(Strip(ReadText(fs[HeadPath].content))) == Symbolic(branch)
    requires BranchRefPath(branch) in fs
    ensures var path := BranchRefPath(branch);
      && (fs[path].File? ==> ReadHead(fs) == Ok(LastCommit(Strip(ReadText(fs[path].content)))))
      && (fs[path].Dir? ==> ReadHead(fs) == Err(IsADirectory(path)))
  {
  }

  /** A HEAD without the marker is reported invalid, whatever else exists. */
  lemma UnmarkedHeadIsInvalid(fs: FileSystem)
    requires HeadPath in fs && fs[HeadPath].File?
    requires !StartsWith(Strip(ReadText(fs[HeadPath].content)), RefMarker)
    ensures ReadHead(fs) == Ok(HeadInvalid)
  {
  }

  /** The flag `status` prints after a staged path: the stored hash differs
      from the hash of the current content. */
  function IsModified(stored: Digest, current: Digest): bool {
    stored != current
  }

  /** The loop over the staged paths of `status` (main.py lines 165-174). The
      order of the paths is not modelled. Reading a staged path that is gone
      or has become a directory raises, as `hash_file` does. */
  method ModifiedFlags(index: Index, fs: FileSystem, sha1: Sha1) returns (r: Result<map<Path, bool>, Failure>)
    ensures r.Ok? <==> forall p :: p in index ==> p in fs && fs[p].File?
    ensures r.Ok? ==> r.value.Keys == index.Keys
    ensures r.Ok? ==> forall p :: p in index ==> r.value[p] == IsModified(index[p], sha1(fs[p].content))
    ensures r.Err? ==> exists p :: p in index && ReadFile(fs, p) == Err(r.error)
  {
    var flags: map<Path, bool> := map[];
    var pending := index.Keys;
    while pending != {}
      invariant pending <= index.Keys
      invariant flags.Keys == index.Keys - pending
      invariant forall q :: q in flags ==> q in fs && fs[q].File? && flags[q] == IsModified(index[q], sha1(fs[q].content))
      decreases pending
    {
      var p :| p in pending;
      match ReadFile(fs, p)
      case Err(e) =>
        return Err(e);
      case Ok(content) =>
        var current, _ := HashFile(content, sha1);
        flags := flags[p := IsModified(index[p], current)];
      pending := pending - {p};
    }
    return Ok(flags);
  }

  /** Right after `add`, on an unchanged filesystem, no accepted path is
      flagged as modified. */
  lemma StagedPathIsClean(index: Index, fs: FileSystem, patterns: seq<string>, sha1: Sha1, files: seq<Path>, p: Path)
    requires p in files && Accepted(fs, patterns, p)
    ensures var s := Staged(index, fs, patterns, sha1, files);
      p in s && !IsModified(s[p], sha1(fs[p].content))
  {
    StagedRecordsAccepted(index, fs, patterns, sha1, files, p);
  }

  /** Once a path is staged, editing it is what `status` flags: on any later
      filesystem where the path is still a file, the flag is set exactly when
      the new content hashes differently from the staged content, and a set
      flag means the content was changed. */
  lemma EditAfterStagingIsFlagged(index: Index, fs: FileSystem, patterns: seq<string>, sha1: Sha1, files: seq<Path>, p: Path, later: FileSystem)
    requires p in files && Accepted(fs, patterns, p)
    requires p in later && later[p].File?
    ensures var s := Staged(index, fs, patterns, sha1, files);
      && p in s
      && (IsModified(s[p], sha1(later[p].content)) <==> sha1(later[p].content) != sha1(fs[p].content))
      && (IsModified(s[p], sha1(later[p].content)) ==> later[p].content != fs[p].content)
  {
    StagedRecordsAccepted(index, fs, patterns, sha1, files, p);
  }
}
