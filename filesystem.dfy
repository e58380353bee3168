/** The abstract filesystem the tool runs against: a map from literal path
    strings to nodes, each a regular file with its bytes or a directory.
    Reading a file returns the exception Python would raise instead of its
    bytes when the path is missing or names a directory. */
module FileSystem {
  import opened Wrappers

  newtype Byte = b: int | 0 <= b < 256
  type Bytes = seq<Byte>
  type Path = string

  datatype Node = File(content: Bytes) | Dir

  type FileSystem = map<Path, Node>

  /** The exceptions of `open` that the core can run into. */
  datatype Failure =
    | FileNotFound(path: Path)
    | IsADirectory(path: Path)
    | NotADirectory(path: Path)

  /** `open(path, 'rb').read()` on the filesystem. */
  function ReadFile(fs: FileSystem, path: Path): (r: Result<Bytes, Failure>)
    ensures r.Ok? <==> path in fs && fs[path].File?
    ensures r.Ok? ==> r.value == fs[path].content
    ensures path !in fs ==> r == Err(FileNotFound(path))
    ensures path in fs && fs[path].Dir? ==> r == Err(IsADirectory(path))
  {
    if path !in fs then Err(FileNotFound(path))
    else if fs[path].Dir? then Err(IsADirectory(path))
    else Ok(fs[path].content)
  }

  /** Each byte read as one character (ISO-8859-1); on ASCII text this is
      also what UTF-8 decoding gives. */
  function DecodeLatin1(b: Bytes): (s: string)
    ensures |s| == |b|
    ensures forall i :: 0 <= i < |b| ==> s[i] as int == b[i] as int
  {
    seq(|b|, i requires 0 <= i < |b| => (b[i] as int) as char)
  }

  predicate IsAscii(s: string) {
    forall i :: 0 <= i < |s| ==> s[i] as int < 128
  }

  /** Encoding of an ASCII string, as a text-mode write produces it. */
  function AsciiBytes(s: string): (b: Bytes)
    requires IsAscii(s)
    ensures DecodeLatin1(b) == s
  {
    seq(|s|, i requires 0 <= i < |s| => (s[i] as int) as Byte)
  }

  /** Universal-newline translation of text mode: "\r\n" and a lone "\r"
      both become "\n". */
  function TranslateNewlines(s: string): (t: string)
    ensures '\r' !in t
    decreases |s|
  {
    if s == [] then []
    else if s[0] == '\r' then
      "\n" + TranslateNewlines(if |s| > 1 && s[1] == '\n' then s[2..] else s[1..])
    else
      [s[0]] + TranslateNewlines(s[1..])
  }

  lemma {:induction false} TranslateNewlinesIdentity(s: string)
    requires '\r' !in s
    ensures TranslateNewlines(s) == s
    decreases |s|
  {
    if s != [] {
      assert s[0] in s;
      assert forall c :: c in s[1..] ==> c in s;
      TranslateNewlinesIdentity(s[1..]);
      assert s == [s[0]] + s[1..];
    }
  }

  /** What `open(path, 'r').read()` yields for a file's bytes. */
  function ReadText(b: Bytes): (s: string)
    ensures '\r' !in s
  {
    TranslateNewlines(DecodeLatin1(b))
  }

  lemma AsciiTextRoundTrip(s: string)
    requires IsAscii(s) && '\r' !in s
    ensures ReadText(AsciiBytes(s)) == s
  {
    TranslateNewlinesIdentity(s);
  }
}
