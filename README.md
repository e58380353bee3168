# gitLite staging area, modelled in Dafny

gitLite is a small version-control tool written in Python. Its working
logic is the staging half of `main.py`:

- `init` creates the `.gitLite` repository directory.
- `add` hashes files into the index, a map from path to content hash saved with pickle.
- `status` resolves HEAD, flags staged files whose content changed, and lists untracked files.
- `get_untracked_files` filters a directory walk.
- `read_gitliteignore` reads the ignore patterns.
- `hash_file` feeds a file to SHA-1 in 8192-byte chunks.

The model runs these against an abstract filesystem: a map from literal path
strings to `File(bytes)` or `Dir`. It proves the properties the code promises.

Modules:

- `FileSystem` (filesystem.dfy): the filesystem, the exceptions of `open`, and text-mode reading.
- `Ignore` (ignore.dfy): `str.strip`, `readlines`, the ignore-line filter and the prefix test.
- `Hashing` (hashing.dfy): the file reader, the hasher object, the chunk loop of `hash_file`.
- `Layout` (layout.dfy): the repository paths and what `init` creates.
- `Staging` (staging.dfy): the loop of `add`. The model's reference for it is `Staged`, which applies one loop step per path. Lemmas show what that index contains.
- `Untracked` (untracked.dfy): the nested loops of `get_untracked_files`, with the walk as an input.
- `Status` (status.dfy): HEAD parsing and the per-file "modified" flag.
- `Repository` (repository.dfy): class `WorkingCopy`. It holds the filesystem, the last saved index and the two foreign functions (SHA-1 and pickle). Its methods are `init`, `load_index`, `save_index`, `add`, `get_untracked_files` and `status`.
- `Sequences`, `Wrappers`: helpers.

Inputs the model takes as parameters:

- SHA-1 is a parameter `sha1: Bytes -> Digest`. A hasher object is modelled by the bytes it has absorbed, and its hex digest is `sha1` of those bytes.
- Pickle is a parameter `pickle: Index -> Bytes`. The index file holds `pickle(saved)`, and `load_index` returns the map last saved.
- The directory walk is an input. It is a sequence of `WalkEntry(root, paths)`, one per directory that `os.walk(".")` visits. `paths` holds the relative paths that `os.path.relpath` computes.

Exceptions the Python code lets escape become `Err` results:

- `FileNotFound`, `IsADirectory` or `NotADirectory`.
- These cover `.gitLiteignore` being a directory, and `add` run before `init` (the index cannot be saved).
- They also cover `status` reaching a staged file that was deleted.

The model follows the code as written, including where it does less than git:

- `add` does not write blobs into an object store. It only records hashes.
- The `#` test of the ignore file is made on the raw line, before stripping. So `"  # x"` gives the pattern `"# x"`.
- `get_untracked_files` skips a walked directory only when its root is literally `".gitLite"`. `os.walk(".")` yields `"./.gitLite"`, so the repository's own files are listed. `RepositoryFilesAreListed` shows this.
- `commit`, `log`, `checkout` and `diff` have empty bodies.

## Model

Functions that only compute a reference value are described by the rows of the lemmas about them:

- `Layout.InitLayout` by `Layout.InitCreatesSkeleton` and `Layout.InitIdempotent`.
- `Ignore.IsIgnored` by `Ignore.IgnoredByPrefix`.
- `Staging.Staged` by `Staging.StagedEntry`, `Staging.StagedFrame`, `Staging.StagedSkipsRejected`, `Staging.StagedRecordsAccepted` and `Staging.StagedIdempotent`.
- `FileSystem.ReadText` (text-mode `f.read()`, main.py:53, 142-143 and 150-151) by `FileSystem.TranslateNewlines`, `FileSystem.TranslateNewlinesIdentity` and `FileSystem.AsciiTextRoundTrip`.
- `Ignore.IgnorePatterns` (the comprehension of main.py:54) by `Ignore.KeepLines`, `Ignore.KeepLinesMembership`, `Ignore.PatternsOfFirstLine` and `Ignore.ReadGitliteignore`.
- `Hashing.Chunks` (the successive `f.read(8192)` of main.py:64) by `Hashing.ChunksPartition` and `Hashing.HashFile`.
- `Untracked.UntrackedIn` by `Untracked.UntrackedInMembership` and `Untracked.UntrackedInAppend`; `Untracked.UntrackedOf` by `Untracked.UntrackedOfMembership`, `Untracked.UntrackedOfAppend` and `Untracked.GetUntracked`.
- `Status.IsModified` (the comparison of main.py:171) by `Status.ModifiedFlags`, `Status.StagedPathIsClean` and `Status.EditAfterStagingIsFlagged`.
- `Repository.LoadedIndex` (main.py:69-76) by `Repository.WorkingCopy.LoadIndex`.
- `Repository.AddOf` and `Repository.SaveFailure` by `Repository.AddKeepsConsistent`, `Repository.AddIsIdempotent` and the methods `Repository.WorkingCopy.Add` and `Repository.WorkingCopy.SaveIndex`, whose contracts are stated through them.

| member | source | states |
|---|---|---|
| FileSystem.ReadFile | main.py:63 | opening a path for reading succeeds exactly on a regular file and yields its bytes; a missing path raises FileNotFound, a directory IsADirectory |
| FileSystem.TranslateNewlines | main.py:53 | the text that text-mode reading yields holds no carriage return |
| FileSystem.TranslateNewlinesIdentity | main.py:53 | newline translation leaves text without a carriage return unchanged |
| FileSystem.AsciiTextRoundTrip | main.py:40-41 | ASCII text written in text mode reads back unchanged |
| Ignore.TrimStart | main.py:54 | removes exactly the longest leading run of whitespace |
| Ignore.TrimEnd | main.py:54 | removes exactly the longest trailing run of whitespace |
| Ignore.Strip | main.py:54 | the stripped line is empty exactly when the line is all whitespace, and otherwise neither starts nor ends with whitespace |
| Ignore.ReadLines | main.py:54 | `readlines` cuts the text into non-empty lines that concatenate back to it; every line but the last ends with its newline, and no line holds another newline |
| Ignore.KeepLines | main.py:54 | at most one pattern per line; no pattern is empty or has surrounding whitespace |
| Ignore.KeepLinesAppend | main.py:54 | the filter distributes over concatenation, so patterns come out in file order |
| Ignore.KeepLinesMembership | main.py:54 | a string is a pattern exactly when some line strips to it, is not blank, and does not start with "#" before stripping |
| Ignore.PatternsOfFirstLine | main.py:54 | the patterns of a text are those of its first line followed by those of the rest |
| Ignore.IndentedCommentIsKept | main.py:54 | an indented line " w" gives the pattern w even when w starts with "#" |
| Ignore.CommentIsDropped | main.py:54 | a line whose raw text starts with "#" gives no pattern |
| Ignore.BlankLineIsDropped | main.py:54 | a whitespace-only line gives no pattern |
| Ignore.ReadGitliteignore | main.py:46-55 | no `.gitLiteignore` gives []; a directory there raises; otherwise the filtered lines of its text |
| Ignore.IgnoredByPrefix | main.py:110 | a path is ignored exactly when it starts with one of the patterns (the same test is at line 211) |
| Hashing.FileReader.Read | main.py:64 | `f.read(8192)` returns the next 8192 bytes, fewer at the end, and nothing once the file is exhausted |
| Hashing.Hasher.Update | main.py:65 | `update` appends the chunk to the absorbed message |
| Hashing.ChunksPartition | main.py:64-65 | the chunks concatenate to the content; each holds 1 to 8192 bytes, and all but the last hold exactly 8192 |
| Hashing.HashFile | main.py:58-66 | the loop feeds exactly the chunk sequence to the hasher, and the digest is SHA-1 of the whole content |
| Layout.InitCreatesSkeleton | main.py:35-41 | without `.gitLite`, `init` adds exactly `.gitLite`, `objects`, `refs`, `refs/heads` and HEAD holding "ref: refs/heads/main", and changes no other path |
| Layout.InitIdempotent | main.py:31-33 | `init` keeps the filesystem well formed, and a second `init` changes nothing |
| Staging.StagePath | main.py:100-127 | one turn of the loop: a missing, directory or ignored path leaves the index as it was with its warning tag; any other path is hashed and upserted, tagged "modified" exactly when it was staged with another hash |
| Staging.StageFiles | main.py:99-127 | the loop of `add` yields the index and notices of the reference `Staged`/`Notices`; both assignments of the "modified" branch are modelled |
| Staging.Notices | main.py:99-122 | one notice per requested path |
| Staging.StagedEntry | main.py:99-127 | after staging, a path is present exactly when it was present before or was named and accepted; it maps to the hash of its content if named and accepted, and to its old entry otherwise |
| Staging.StagedSkipsRejected | main.py:100-112 | a path that is missing, a directory or ignored keeps its entry, whether it had one or not |
| Staging.StagedRecordsAccepted | main.py:115-127 | a named, accepted path maps to the hash of its current content, whatever it was before |
| Staging.StagedFrame | main.py:93-129 | paths not named keep their entries; the new domain is the old domain plus the accepted paths |
| Staging.StagedIdempotent | main.py:118-127 | staging the same paths again on an unchanged filesystem changes nothing |
| Staging.NoticesAt | main.py:100-122 | the notice of the i-th path is computed against the index left by the paths before it |
| Staging.ModifiedNotice | main.py:118-122 | the "modified, updating" notice appears exactly for an accepted path already in the loaded index with a different hash, on its first occurrence |
| Untracked.GetUntracked | main.py:200-218 | the nested loops return the reference list `UntrackedOf` |
| Untracked.UntrackedInAppend | main.py:207-216 | within one directory, the filter keeps the file order |
| Untracked.UntrackedOfAppend | main.py:202-216 | an earlier directory's files come before a later one's |
| Untracked.UntrackedInMembership | main.py:207-216 | within one directory, a file is listed exactly when it is neither ignored nor tracked |
| Untracked.UntrackedOfMembership | main.py:202-216 | a path is listed exactly when it is neither in the index nor ignored, and it is in a walked directory whose root is not literally ".gitLite" |
| Untracked.RepositoryFilesAreListed | main.py:202-205 | a directory walked as "./.gitLite" is not skipped |
| Status.ParseHead | main.py:145-146 | HEAD is symbolic exactly when it starts with "ref: ", and the branch is the text after the marker |
| Status.BranchRefPath | main.py:147 | `os.path.join(".gitLite", branch)`: a relative branch lands inside `.gitLite` and is recovered after the separator; an absolute one replaces the directory |
| Status.ReadHead | main.py:142-156 | a HEAD that is a directory raises IsADirectory; the only failures are opening a directory, since the branch file is opened only once it exists |
| Status.BranchFileReportsLastCommit | main.py:145-152 | a symbolic HEAD whose branch file exists reports that file's stripped content as the last commit; a directory there raises IsADirectory |
| Status.InitialHeadNamesMain | main.py:142-146 | the HEAD that `init` writes parses to the branch "refs/heads/main" |
| Status.InitReportsNoCommits | main.py:142-154 | right after `init`, `status` reports that there are no commits yet |
| Status.SymbolicHeadWithoutCommits | main.py:145-154 | a symbolic HEAD whose branch file is missing reports no commits |
| Status.UnmarkedHeadIsInvalid | main.py:145-156 | a HEAD without the marker is reported invalid |
| Status.ModifiedFlags | main.py:161-174 | the flags are defined exactly when every staged path is a readable file; then each flag says whether the stored hash differs from the current one; otherwise the error is that of a staged path |
| Status.StagedPathIsClean | main.py:115-127 | right after `add`, an accepted path is not flagged as modified |
| Status.EditAfterStagingIsFlagged | main.py:165-172 | once a path is staged, `status` flags it as modified exactly when its current content hashes differently from the staged content, and a flag means the content was edited |
| Repository.AddKeepsConsistent | main.py:127-129 | after `add`, the index file still holds the pickle of the saved index |
| Repository.StagedReadsNamedPaths | main.py:99-127 | staging looks at the filesystem only at the named paths |
| Repository.AddIsIdempotent | main.py:87-129 | a second `add` with the same paths (not the index file itself) leaves the same index and filesystem |
| Repository.WorkingCopy.Init | main.py:31-43 | `init` creates the skeleton exactly when `.gitLite` does not exist, and otherwise changes nothing |
| Repository.WorkingCopy.LoadIndex | main.py:69-76 | returns the last saved index, or {} if none was saved |
| Repository.WorkingCopy.SaveIndex | main.py:79-84 | saving needs `.gitLite` to be a directory; on success the index file holds the new map and nothing else changes |
| Repository.WorkingCopy.Add | main.py:87-129 | `add` loads, reads the ignore file, stages, then saves; a failure at either read or save leaves the state unchanged |
| Repository.WorkingCopy.GetUntrackedFiles | main.py:190-218 | the untracked list of the walk, after loading the index keys and the ignore patterns |
| Repository.WorkingCopy.Status | main.py:131-188 | no repository or no HEAD end `status` early; otherwise it succeeds exactly when HEAD, every staged file and the ignore file can be read, and then reports HEAD, the modified flags and the untracked files; a failure is HEAD's error first, then that of an unreadable staged file, then the ignore file's |

## Left out

- `commit`, `log`, `checkout`, `diff`: their bodies are `pass`, so there is no behaviour to model. The CLI's `commit(args.message)` call to a zero-argument function is out too.
- Command-line parsing in `main` and all console output. Messages are reduced to outcome tags (`Notice`, `HeadReport`, `StatusReport`). The hard-coded "up to date with 'origin/main'" line has no effect and is omitted.
- SHA-1 itself and the pickle encoding. Both are parameters of the model; the reference for SHA-1 is FIPS 180-4, section 6.1.
- models.py: its `Commit` class only stores its arguments, a floating-point timestamp and a pickle serialisation.
- The real `os.walk` and `os.path.relpath`: the walk is an input, already turned into relative paths.
- Path normalisation: paths are literal map keys, so `"./a.txt"` and `"a.txt"` are different paths in the model. This is also true of the index.
- Text decoding: each byte is read as one character (ISO-8859-1), with universal-newline translation. This agrees with UTF-8 only on ASCII, and decoding errors are not modelled.
- Filesystem shape: the filesystem is a flat map. The only tree property kept is that nothing lies under `.gitLite` unless it is a directory. So `os.makedirs` failures on other shapes are not modelled.
- OS errors other than a missing file, a directory opened as a file, or a file used as a directory (permissions, full disk). Concurrent access to the index and ref files is also out.
- `FileReader.Read` returns exactly the remaining bytes up to the requested size, which is what a buffered reader does on a regular file. Short reads from other kinds of file are not modelled.
- Status.ModifiedFlags: the staged paths are visited in an unspecified order, not Python's dict insertion order. On failure, the error is that of some unreadable staged path, not necessarily the first in insertion order.
- Repository.WorkingCopy.Status: the staged files are reported as a map from path to modified flag, not as a list in insertion order.
