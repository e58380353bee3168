/** The repository directory and `init` (main.py lines 14-18 and 21-43). */
module Layout {
  import opened Sequences
  import opened FileSystem

  const GitliteDir: Path := ".gitLite"
  const ObjectsDir: Path := ".gitLite/objects"
  const RefsParentDir: Path := ".gitLite/refs"
  const RefsDir: Path := ".gitLite/refs/heads"
  const IndexPath: Path := ".gitLite/index"
  const HeadPath: Path := ".gitLite/HEAD"

  /** The text `init` writes to HEAD. */
  const HeadText: string := "ref: refs/heads/main"

  /** HEAD as `init` writes it, in text mode. */
  function HeadContent(): (b: Bytes)
    ensures |b| == |HeadText|
  {
    assert IsAscii(HeadText);
    AsciiBytes(HeadText)
  }

  predicate InRepository(p: Path) {
    StartsWith(p, GitliteDir + "/")
  }

  /** What a real directory tree guarantees about `.gitLite`: nothing lies
      below it unless it is a directory. */
  predicate WellFormed(fs: FileSystem) {
    forall p :: p in fs && InRepository(p) ==> GitliteDir in fs && fs[GitliteDir].Dir?
  }

  /** `init`: nothing happens when `.gitLite` exists (as a file or as a
      directory); otherwise the two `os.makedirs` calls create `.gitLite`,
      `objects`, `refs` and `refs/heads`, and HEAD is written. */
  function InitLayout(fs: FileSystem): FileSystem {
    if GitliteDir in fs then fs
    else fs[GitliteDir := Dir][ObjectsDir := Dir][RefsParentDir := Dir][RefsDir := Dir][HeadPath := File(HeadContent())]
  }

  /** On a well-formed filesystem without `.gitLite`, `init` adds exactly the
      repository skeleton and leaves every other path as it was. */
  lemma InitCreatesSkeleton(fs: FileSystem)
    requires WellFormed(fs) && GitliteDir !in fs
    ensures var r := InitLayout(fs);
      && r.Keys == fs.Keys + {GitliteDir, ObjectsDir, RefsParentDir, RefsDir, HeadPath}
      && r[GitliteDir] == Dir && r[ObjectsDir] == Dir && r[RefsParentDir] == Dir && r[RefsDir] == Dir
      && r[HeadPath] == File(HeadContent())
      && forall p :: p in fs ==> r[p] == fs[p]
  {
    var r := InitLayout(fs);
    assert InRepository(ObjectsDir) && InRepository(RefsParentDir) && InRepository(RefsDir) && InRepository(HeadPath);
    forall p | p in fs ensures r[p] == fs[p] {
      assert p !in {GitliteDir, ObjectsDir, RefsParentDir, RefsDir, HeadPath};
    }
  }

  /** `init` keeps the filesystem well formed, and a second `init` changes
      nothing. */
  lemma InitIdempotent(fs: FileSystem)
    requires WellFormed(fs)
    ensures WellFormed(InitLayout(fs))
    ensures InitLayout(InitLayout(fs)) == InitLayout(fs)
  {
  }
}
