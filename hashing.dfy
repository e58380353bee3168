/** `hash_file`: the file is read in chunks of at most 8192 bytes and each
    chunk is fed to a SHA-1 hasher until a read comes back empty. SHA-1 itself
    (FIPS 180-4, section 6.1) is a parameter of the model: a hasher object is
    described by the bytes it has absorbed, and its digest is SHA-1 of them. */
module Hashing {
  import opened Sequences
  import opened FileSystem

  /** A hex digest. */
  type Digest = string

  /** SHA-1 of a whole message, as `hashlib.sha1(m).hexdigest()` gives it. */
  type Sha1 = Bytes -> Digest

  const ChunkSize: nat := 8192

  /** A file opened with `open(path, 'rb')`: its bytes and the read offset. */
  class FileReader {
    const content: Bytes
    var pos: nat

    ghost predicate Valid()
      reads this
    {
      pos <= |content|
    }

    constructor (content: Bytes)
      ensures Valid() && this.content == content && pos == 0
    {
      this.content := content;
      pos := 0;
    }

    /** `f.read(size)` on a regular file: the next `size` bytes, or fewer at
        the end of the file, and the empty sequence once it is exhausted. */
    method Read(size: nat) returns (chunk: Bytes)
      requires Valid()
      modifies this
      ensures Valid()
      ensures pos == Min(old(pos) + size, |content|)
      ensures chunk == content[old(pos)..pos]
    {
      var end := Min(pos + size, |content|);
      chunk := content[pos..end];
      pos := end;
    }
  }

  /** A `hashlib.sha1()` object: the message absorbed so far. */
  class Hasher {
    const sha1: Sha1
    var absorbed: Bytes

    constructor (sha1: Sha1)
      ensures this.sha1 == sha1 && absorbed == []
    {
      this.sha1 := sha1;
      absorbed := [];
    }

    /** `hasher.update(chunk)`. */
    method Update(chunk: Bytes)
      modifies this
      ensures absorbed == old(absorbed) + chunk
    {
      absorbed := absorbed + chunk;
    }

    /** `hasher.hexdigest()`. */
    function HexDigest(): Digest
      reads this
    {
      sha1(absorbed)
    }
  }

  /** The successive reads of `hash_file`: chunks of 8192 bytes, the last
      one possibly shorter. */
  function Chunks(content: Bytes): seq<Bytes>
    decreases |content|
  {
    if content == [] then []
    else
      var n := Min(ChunkSize, |content|);
      [content[..n]] + Chunks(content[n..])
  }

  /** The chunks concatenate to the content, none is empty, none is longer
      than 8192 bytes, and all but the last are exactly 8192 bytes long. */
  lemma {:induction false} ChunksPartition(content: Bytes)
    ensures Concat(Chunks(content)) == content
    ensures forall i :: 0 <= i < |Chunks(content)| ==> 0 < |Chunks(content)[i]| <= ChunkSize
    ensures forall i :: 0 <= i < |Chunks(content)| - 1 ==> |Chunks(content)[i]| == ChunkSize
    decreases |content|
  {
    if content != [] {
      var n := Min(ChunkSize, |content|);
      var rest := Chunks(content[n..]);
      ChunksPartition(content[n..]);
      assert Chunks(content) == [content[..n]] + rest;
      assert Concat(Chunks(content)) == content[..n] + Concat(rest);
      assert content == content[..n] + content[n..];
      forall i | 0 < i < |Chunks(content)| ensures Chunks(content)[i] == rest[i - 1] { }
      if n < ChunkSize {
        assert content[n..] == [];
      }
    }
  }

  /** The chunks read from offset `p` on: the next one, then the rest. */
  lemma ChunksFrom(content: Bytes, p: nat)
    requires p < |content|
    ensures var q := Min(p + ChunkSize, |content|);
      Chunks(content[p..]) == [content[p..q]] + Chunks(content[q..])
  {
    var q := Min(p + ChunkSize, |content|);
    assert content[p..][q - p..] == content[q..];
    assert content[p..][..q - p] == content[p..q];
  }

  /** One turn of the read loop keeps "chunks read so far, then the chunks of
      the unread rest" equal to the chunks of the whole content. */
  lemma ChunkStep(content: Bytes, done: seq<Bytes>, p: nat)
    requires p < |content|
    requires done + Chunks(content[p..]) == Chunks(content)
    ensures var q := Min(p + ChunkSize, |content|);
      (done + [content[p..q]]) + Chunks(content[q..]) == Chunks(content)
  {
    var q := Min(p + ChunkSize, |content|);
    ChunksFrom(content, p);
    Regroup(done, [content[p..q]], Chunks(content[q..]), Chunks(content[p..]), Chunks(content));
  }

  /** Moving the head of the pending part over to the part already done. */
  lemma Regroup<T>(done: seq<T>, head: seq<T>, tail: seq<T>, pending: seq<T>, whole: seq<T>)
    requires pending == head + tail && done + pending == whole
    ensures (done + head) + tail == whole
  {
  }

  /** `hash_file` on a file with the given bytes. The chunks fed to the hasher
      are `Chunks(content)`, and the digest is SHA-1 of the whole content. */
  method HashFile(content: Bytes, sha1: Sha1) returns (digest: Digest, ghost chunks: seq<Bytes>)
    ensures chunks == Chunks(content)
    ensures digest == sha1(content)
  {
    var hasher := new Hasher(sha1);
    var f := new FileReader(content);
    chunks := [];
    while true
      invariant f.Valid() && f.content == content
      invariant hasher.sha1 == sha1
      invariant hasher.absorbed == content[..f.pos]
      invariant chunks + Chunks(content[f.pos..]) == Chunks(content)
      decreases |content| - f.pos
    {
      ghost var before := f.pos;
      var chunk := f.Read(ChunkSize);
      if chunk == [] {
        break;
      }
      ChunkStep(content, chunks, before);
      PrefixExtend(content, before, f.pos);
      hasher.Update(chunk);
      chunks := chunks + [chunk];
    }
    assert content[..f.pos] == content;
    assert content[f.pos..] == [];
    digest := hasher.HexDigest();
  }
}
