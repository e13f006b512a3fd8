/**
 * Content fingerprinting (`get_sha256`). SHA-256 itself is not modelled: it
 * is a function parameter `sha` from byte strings to 32-byte digests, and a
 * `hashlib` object is modelled by the bytes it has absorbed, so that
 * `update(a); update(b)` digests `a + b` as `hashlib` promises.
 */
module ContentHasher {
  import opened Bytes

  const DigestSize: nat := 32

  /** What `hashlib.sha256(...).digest()` returns. */
  type Digest = d: seq<byte> | |d| == DigestSize witness seq(32, _ => 0 as byte)

  /** The read size of the loop. */
  const ChunkSize: nat := 4096

  /** A `hashlib.sha256()` object. */
  datatype Sha256State = Sha256State(absorbed: seq<byte>)

  function Update(s: Sha256State, chunk: seq<byte>): Sha256State
  {
    Sha256State(s.absorbed + chunk)
  }

  function HexDigest(sha: seq<byte> -> Digest, s: Sha256State): string
  {
    Hex(sha(s.absorbed))
  }

  /** `f.read(ChunkSize)` at offset `pos`: at most `ChunkSize` bytes, empty only at end of file. */
  function ReadChunk(content: seq<byte>, pos: nat): (r: seq<byte>)
    requires pos <= |content|
    ensures |r| <= ChunkSize && pos + |r| <= |content|
    ensures |r| == 0 <==> pos == |content|
    ensures |r| < ChunkSize ==> pos + |r| == |content|
    ensures r == content[pos..pos + |r|]
  {
    if |content| - pos <= ChunkSize then content[pos..] else content[pos..pos + ChunkSize]
  }

  function Concat(chunks: seq<seq<byte>>): seq<byte>
  {
    if |chunks| == 0 then [] else Concat(chunks[..|chunks| - 1]) + chunks[|chunks| - 1]
  }

  /** Appending one more read to the reads so far. */
  lemma ConcatSnoc(chunks: seq<seq<byte>>, chunk: seq<byte>)
    ensures Concat(chunks + [chunk]) == Concat(chunks) + chunk
  {
    assert (chunks + [chunk])[..|chunks|] == chunks;
  }

  /**
   * The `while chunk := f.read(4096)` loop: it feeds the whole file, in order,
   * to the hash in non-empty reads of at most `ChunkSize` bytes, every read
   * but the last one full, and returns the hex digest of the whole file.
   */
  method FileDigest(sha: seq<byte> -> Digest, content: seq<byte>) returns (hex: string, chunks: seq<seq<byte>>)
    ensures hex == Hex(sha(content))
    ensures Concat(chunks) == content
    ensures forall i :: 0 <= i < |chunks| ==> 0 < |chunks[i]| <= ChunkSize
    ensures forall i :: 0 <= i < |chunks| - 1 ==> |chunks[i]| == ChunkSize
  {
    var state := Sha256State([]);
    var pos := 0;
    chunks := [];
    var chunk := ReadChunk(content, pos);
    while |chunk| > 0
      invariant pos <= |content|
      invariant chunk == ReadChunk(content, pos)
      invariant state.absorbed == content[..pos] == Concat(chunks)
      invariant forall i :: 0 <= i < |chunks| ==> 0 < |chunks[i]| <= ChunkSize
      invariant forall i :: 0 <= i < |chunks| - 1 ==> |chunks[i]| == ChunkSize
      invariant |chunks| > 0 && |chunks[|chunks| - 1]| < ChunkSize ==> pos == |content|
      decreases |content| - pos
    {
      state := Update(state, chunk);
      assert content[..pos + |chunk|] == content[..pos] + chunk;
      ConcatSnoc(chunks, chunk);
      pos := pos + |chunk|;
      chunks := chunks + [chunk];
      chunk := ReadChunk(content, pos);
    }
    assert content[..pos] == content;
    hex := HexDigest(sha, state);
  }
}
