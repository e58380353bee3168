/** The directory gitLite runs in, as one object: the filesystem, the index
    last saved by `save_index`, and the two foreign functions the core calls
    (SHA-1 and pickle). `init` and `add` change it; `status` and
    `get_untracked_files` only read it. */
module Repository {
  import opened Wrappers
  import opened Sequences
  import opened FileSystem
  import opened Ignore
  import opened Hashing
  import opened Layout
  import opened Staging
  import opened Untracked
  import opened Status

  /** `load_index()`: the last saved map, or the empty map if none was saved. */
  function LoadedIndex(saved: Option<Index>): Index {
    saved.GetOr(map[])
  }

  /** Why `open(".gitLite/index", "wb")` raises, if it does. */
  function SaveFailure(fs: FileSystem): Option<Failure> {
    if GitliteDir !in fs then Some(FileNotFound(IndexPath))
    else if fs[GitliteDir].File? then Some(NotADirectory(IndexPath))
    else None
  }

  /** Every staged path can be hashed: it names a regular file. */
  predicate StagedReadable(fs: FileSystem, index: Index) {
    forall p :: p in index ==> p in fs && fs[p].File?
  }

  /** The index file on disk holds the pickle of the saved index, and exists
      exactly when an index was saved. */
  predicate Consistent(fs: FileSystem, saved: Option<Index>, pickle: Index -> Bytes) {
    && WellFormed(fs)
    && (IndexPath in fs <==> saved.Some?)
    && (saved.Some? ==> fs[IndexPath] == File(pickle(saved.value)))
  }

  /** The effect of `add(files)`: its outcome, the new filesystem and the new
      saved index. */
  datatype AddEffect = AddEffect(outcome: Result<seq<Notice>, Failure>, fs: FileSystem, saved: Option<Index>)

  /** `add`: load the index, read the ignore patterns (an exception there
      stops everything), stage the paths, then save (an exception there loses
      the staged entries). */
  function AddOf(fs: FileSystem, saved: Option<Index>, sha1: Sha1, pickle: Index -> Bytes, files: seq<Path>): AddEffect {
    match ReadGitliteignore(fs)
    case Err(e) => AddEffect(Err(e), fs, saved)
    case Ok(patterns) =>
      var index := LoadedIndex(saved);
      var staged := Staged(index, fs, patterns, sha1, files);
      match SaveFailure(fs)
      case Some(e) => AddEffect(Err(e), fs, saved)
      case None => AddEffect(Ok(Notices(index, fs, patterns, sha1, files)), fs[IndexPath := File(pickle(staged))], Some(staged))
  }

  /** `add` keeps the index file consistent with what it saved. */
  lemma AddKeepsConsistent(fs: FileSystem, saved: Option<Index>, sha1: Sha1, pickle: Index -> Bytes, files: seq<Path>)
    requires Consistent(fs, saved, pickle)
    ensures var a := AddOf(fs, saved, sha1, pickle, files);
      Consistent(a.fs, a.saved, pickle)
  {
  }

  /** Staging reads the filesystem only at the named paths. */
  lemma {:induction false} StagedReadsNamedPaths(index: Index, fs: FileSystem, fs': FileSystem, patterns: seq<string>, sha1: Sha1, files: seq<Path>)
    requires forall p :: p in files ==> (p in fs <==> p in fs') && (p in fs ==> fs[p] == fs'[p])
    ensures Staged(index, fs, patterns, sha1, files) == Staged(index, fs', patterns, sha1, files)
    decreases |files|
  {
    if files != [] {
      assert files[0] in files;
      assert forall p :: p in files[1..] ==> p in files;
      StagedReadsNamedPaths(StageOne(index, fs, patterns, sha1, files[0]), fs, fs', patterns, sha1, files[1..]);
    }
  }

  /** Saving the index changes neither the ignore patterns nor whether the
      next save can succeed. */
  lemma SaveKeepsInputs(fs: FileSystem, b: Bytes)
    ensures ReadGitliteignore(fs[IndexPath := File(b)]) == ReadGitliteignore(fs)
    ensures SaveFailure(fs[IndexPath := File(b)]) == SaveFailure(fs)
  {
    assert IgnoreFile != IndexPath by {
      assert IgnoreFile[8] != IndexPath[8];
    }
    assert GitliteDir != IndexPath by {
      assert |GitliteDir| != |IndexPath|;
    }
  }

  /** `add` when the ignore file can be read and the index can be saved. */
  lemma AddOfSaved(fs: FileSystem, saved: Option<Index>, sha1: Sha1, pickle: Index -> Bytes, files: seq<Path>)
    requires ReadGitliteignore(fs).Ok? && SaveFailure(fs).None?
    ensures var index := LoadedIndex(saved);
      var patterns := ReadGitliteignore(fs).value;
      var staged := Staged(index, fs, patterns, sha1, files);
      AddOf(fs, saved, sha1, pickle, files)
        == AddEffect(Ok(Notices(index, fs, patterns, sha1, files)), fs[IndexPath := File(pickle(staged))], Some(staged))
  {
  }

  /** Running `add` twice with the same arguments leaves the same index and
      the same filesystem as running it once, provided the index file itself
      is not among the paths (its bytes change with every save). */
  lemma AddIsIdempotent(fs: FileSystem, saved: Option<Index>, sha1: Sha1, pickle: Index -> Bytes, files: seq<Path>)
    requires IndexPath !in files
    requires AddOf(fs, saved, sha1, pickle, files).outcome.Ok?
    ensures var once := AddOf(fs, saved, sha1, pickle, files);
      var twice := AddOf(once.fs, once.saved, sha1, pickle, files);
      twice.outcome.Ok? && twice.saved == once.saved && twice.fs == once.fs
  {
    var patterns := ReadGitliteignore(fs).value;
    var staged := Staged(LoadedIndex(saved), fs, patterns, sha1, files);
    var fs1 := fs[IndexPath := File(pickle(staged))];
    AddOfSaved(fs, saved, sha1, pickle, files);
    SaveKeepsInputs(fs, pickle(staged));
    AddOfSaved(fs1, Some(staged), sha1, pickle, files);
    StagedReadsNamedPaths(staged, fs, fs1, patterns, sha1, files);
    StagedIdempotent(LoadedIndex(saved), fs, patterns, sha1, files);
    assert LoadedIndex(Some(staged)) == staged;
    assert fs1[IndexPath := File(pickle(staged))] == fs1;
  }

  /** What `status` reports, its messages reduced to tags. */
  datatype StatusReport =
    | NoRepository
    | NoHeadFile
    | Summary(head: HeadReport, modified: map<Path, bool>, untracked: seq<Path>)

  class WorkingCopy {
    var fs: FileSystem
    var savedIndex: Option<Index>
    const sha1: Sha1
    const pickle: Index -> Bytes

    ghost predicate Valid()
      reads this
    {
      Consistent(fs, savedIndex, pickle)
    }

    constructor (fs: FileSystem, saved: Option<Index>, sha1: Sha1, pickle: Index -> Bytes)
      requires Consistent(fs, saved, pickle)
      ensures Valid()
      ensures this.fs == fs && savedIndex == saved && this.sha1 == sha1 && this.pickle == pickle
    {
      this.fs := fs;
      savedIndex := saved;
      this.sha1 := sha1;
      this.pickle := pickle;
    }

    /** `init`: reports whether it created the repository. */
    method Init() returns (created: bool)
      requires Valid()
      modifies this
      ensures Valid()
      ensures created == (GitliteDir !in old(fs))
      ensures fs == InitLayout(old(fs)) && savedIndex == old(savedIndex)
    {
      if GitliteDir in fs {
        return false;
      }
      InitIdempotent(fs);
      fs := fs[GitliteDir := Dir][ObjectsDir := Dir][RefsParentDir := Dir][RefsDir := Dir];
      fs := fs[HeadPath := File(HeadContent())];
      return true;
    }

    /** `load_index`. */
    method LoadIndex() returns (index: Index)
      requires Valid()
      ensures savedIndex.None? ==> index == map[]
      ensures savedIndex.Some? ==> index == savedIndex.value
    {
      index := LoadedIndex(savedIndex);
    }

    /** `save_index`: on success the next `LoadIndex` returns `index`. */
    method SaveIndex(index: Index) returns (failure: Option<Failure>)
      requires Valid()
      modifies this
      ensures Valid()
      ensures failure == SaveFailure(old(fs))
      ensures failure.None? ==> savedIndex == Some(index) && fs == old(fs)[IndexPath := File(pickle(index))]
      ensures failure.Some? ==> savedIndex == old(savedIndex) && fs == old(fs)
    {
      failure := SaveFailure(fs);
      if failure.None? {
        fs := fs[IndexPath := File(pickle(index))];
        savedIndex := Some(index);
      }
    }

    /** `add(files)`. */
    method Add(files: seq<Path>) returns (outcome: Result<seq<Notice>, Failure>)
      requires Valid()
      modifies this
      ensures Valid()
      ensures AddOf(old(fs), old(savedIndex), sha1, pickle, files) == AddEffect(outcome, fs, savedIndex)
    {
      var index := LoadIndex();
      var ignore := ReadGitliteignore(fs);
      if ignore.Err? {
        return Err(ignore.error);
      }
      var staged, notices := StageFiles(index, fs, ignore.value, sha1, files);
      var failure := SaveIndex(staged);
      if failure.Some? {
        return Err(failure.value);
      }
      return Ok(notices);
    }

    /** `get_untracked_files`, given the walk of the working directory. */
    method GetUntrackedFiles(walk: seq<WalkEntry>) returns (r: Result<seq<Path>, Failure>)
      requires Valid()
      ensures ReadGitliteignore(fs).Err? ==> r == Err(ReadGitliteignore(fs).error)
      ensures ReadGitliteignore(fs).Ok? ==>
        r == Ok(UntrackedOf(walk, LoadedIndex(savedIndex).Keys, ReadGitliteignore(fs).value))
    {
      var index := LoadIndex();
      var ignore := ReadGitliteignore(fs);
      if ignore.Err? {
        return Err(ignore.error);
      }
      var untracked := GetUntracked(walk, index.Keys, ignore.value);
      return Ok(untracked);
    }

    /** `status`, given the walk of the working directory. */
    method Status(walk: seq<WalkEntry>) returns (r: Result<StatusReport, Failure>)
      requires Valid()
      ensures GitliteDir !in fs ==> r == Ok(NoRepository)
      ensures GitliteDir in fs && HeadPath !in fs ==> r == Ok(NoHeadFile)
      ensures GitliteDir in fs && HeadPath in fs ==>
        (r.Ok? <==> && ReadHead(fs).Ok?
                    && StagedReadable(fs, LoadedIndex(savedIndex))
                    && ReadGitliteignore(fs).Ok?)
        && (r.Ok? ==> r.value.Summary?)
      // The failures come in the order `status` meets them: HEAD, then the
      // staged files, then the ignore file read by `get_untracked_files`.
      ensures GitliteDir in fs && HeadPath in fs && ReadHead(fs).Err? ==> r == Err(ReadHead(fs).error)
      ensures GitliteDir in fs && HeadPath in fs && ReadHead(fs).Ok? && !StagedReadable(fs, LoadedIndex(savedIndex)) ==>
        r.Err? && exists p :: p in LoadedIndex(savedIndex) && ReadFile(fs, p) == Err(r.error)
      ensures GitliteDir in fs && HeadPath in fs && ReadHead(fs).Ok? && StagedReadable(fs, LoadedIndex(savedIndex)) && ReadGitliteignore(fs).Err? ==>
        r == Err(ReadGitliteignore(fs).error)
      ensures r.Ok? && r.value.Summary? ==>
        var index := LoadedIndex(savedIndex);
        && HeadPath in fs && ReadHead(fs) == Ok(r.value.head)
        && r.value.modified.Keys == index.Keys
        && (forall p :: p in index ==>
              p in fs && fs[p].File? && r.value.modified[p] == IsModified(index[p], sha1(fs[p].content)))
        && ReadGitliteignore(fs).Ok?
        && r.value.untracked == UntrackedOf(walk, index.Keys, ReadGitliteignore(fs).value)
    {
      if GitliteDir !in fs {
        return Ok(NoRepository);
      }
      if HeadPath !in fs {
        return Ok(NoHeadFile);
      }
      var head := ReadHead(fs);
      if head.Err? {
        return Err(head.error);
      }
      var index := LoadIndex();
      var flags := ModifiedFlags(index, fs, sha1);
      if flags.Err? {
        return Err(flags.error);
      }
      var untracked := GetUntrackedFiles(walk);
      if untracked.Err? {
        return Err(untracked.error);
      }
      return Ok(Summary(head.value, flags.value, untracked.value));
    }
  }
}
