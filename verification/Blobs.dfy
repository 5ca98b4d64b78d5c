/** File contents in Badger: a blob is a run of chunks under one internal ID. */
module Blobs {
  import opened Paths
  import opened Disk

  type BlobId = nat
  const CHUNK_SIZE: nat := 262144
  /** Chunk numbers are 32 bits wide. */
  const MAX_CHUNKS: nat := 0x1_0000_0000

  datatype ChunkKey = ChunkKey(blob: BlobId, seqNo: nat)
  type Chunks = map<ChunkKey, seq<byte>>

  function ChunkCount(size: nat): nat {
    (size + CHUNK_SIZE - 1) / CHUNK_SIZE
  }

  function ChunkAt(content: seq<byte>, i: nat): seq<byte>
    requires i < ChunkCount(|content|)
  {
    ChunkStart(|content|, i);
    content[i * CHUNK_SIZE..Min((i + 1) * CHUNK_SIZE, |content|)]
  }

  lemma ChunkStart(size: nat, i: nat)
    requires i < ChunkCount(size)
    ensures i * CHUNK_SIZE < size && i * CHUNK_SIZE <= Min((i + 1) * CHUNK_SIZE, size)
  {
  }

  /** What is stored of a blob is part of this content. */
  predicate ChunkFits(chunks: Chunks, blob: BlobId, content: seq<byte>, i: nat) {
    ChunkKey(blob, i) in chunks ==> i < ChunkCount(|content|) && chunks[ChunkKey(blob, i)] == ChunkAt(content, i)
  }

  predicate ChunkThere(chunks: Chunks, blob: BlobId, i: nat) {
    ChunkKey(blob, i) in chunks
  }

  ghost predicate PartOf(chunks: Chunks, blob: BlobId, content: seq<byte>) {
    forall i: nat {:trigger ChunkFits(chunks, blob, content, i)} :: ChunkFits(chunks, blob, content, i)
  }

  /** Exactly the chunks of this content are stored. */
  ghost predicate Complete(chunks: Chunks, blob: BlobId, content: seq<byte>) {
    PartOf(chunks, blob, content) &&
    forall i: nat {:trigger ChunkThere(chunks, blob, i)} :: i < ChunkCount(|content|) ==> ChunkThere(chunks, blob, i)
  }

  ghost predicate Absent(chunks: Chunks, blob: BlobId) {
    forall i: nat {:trigger ChunkThere(chunks, blob, i)} :: !ChunkThere(chunks, blob, i)
  }

  // ----- The chunks of a content are the content -----

  function Joined(chunks: Chunks, blob: BlobId, n: nat): seq<byte> {
    if n == 0 then []
    else Joined(chunks, blob, n - 1) + (if ChunkKey(blob, n - 1) in chunks then chunks[ChunkKey(blob, n - 1)] else [])
  }

  /** The stored chunks, in the order of their numbers, concatenate to the content. */
  lemma {:induction false} CompleteJoins(chunks: Chunks, blob: BlobId, content: seq<byte>, n: nat)
    requires Complete(chunks, blob, content) && n <= ChunkCount(|content|)
    ensures Joined(chunks, blob, n) == content[..Min(n * CHUNK_SIZE, |content|)]
  {
    if n > 0 {
      var j: nat := n - 1;
      CompleteJoins(chunks, blob, content, j);
      ChunkStart(|content|, j);
      assert ChunkThere(chunks, blob, j) && ChunkFits(chunks, blob, content, j);
      var a, b := Min(j * CHUNK_SIZE, |content|), Min(n * CHUNK_SIZE, |content|);
      assert content[..a] + content[a..b] == content[..b];
    }
  }

  /** Two contents stored completely under one ID are the same. */
  lemma CompleteIsUnique(chunks: Chunks, blob: BlobId, a: seq<byte>, b: seq<byte>)
    requires Complete(chunks, blob, a) && Complete(chunks, blob, b) && |a| == |b|
    ensures a == b
  {
    CompleteJoins(chunks, blob, a, ChunkCount(|a|));
    CompleteJoins(chunks, blob, b, ChunkCount(|b|));
    assert a[..|a|] == a && b[..|b|] == b;
  }

  lemma CompleteIsPart(chunks: Chunks, blob: BlobId, content: seq<byte>)
    requires Complete(chunks, blob, content)
    ensures PartOf(chunks, blob, content)
  {
  }

  // ----- Writing -----

  /** The chunks written so far, some of them perhaps still in the batch. */
  ghost predicate Writing(stored: Chunks, pending: Chunks, blob: BlobId, content: seq<byte>, n: nat) {
    && n <= ChunkCount(|content|) && PartOf(stored, blob, content)
    && (forall i: nat {:trigger ChunkThere(stored, blob, i)} :: i < n ==> ChunkThere(stored, blob, i) || ChunkThere(pending, blob, i))
    && (forall k :: k in pending ==> k.blob == blob && k.seqNo < n && pending[k] == ChunkAt(content, k.seqNo))
  }

  lemma NothingWritten(stored: Chunks, blob: BlobId, content: seq<byte>)
    requires Absent(stored, blob)
    ensures Writing(stored, map[], blob, content, 0)
  {
    forall i: nat ensures ChunkFits(stored, blob, content, i) {
      assert !ChunkThere(stored, blob, i);
    }
  }

  lemma NextPending(stored: Chunks, pending: Chunks, blob: BlobId, content: seq<byte>, n: nat)
    requires Writing(stored, pending, blob, content, n) && n < ChunkCount(|content|)
    ensures Writing(stored, pending[ChunkKey(blob, n) := ChunkAt(content, n)], blob, content, n + 1)
  {
  }

  lemma Flushed(stored: Chunks, pending: Chunks, blob: BlobId, content: seq<byte>, n: nat)
    requires Writing(stored, pending, blob, content, n)
    ensures Writing(stored + pending, map[], blob, content, n)
  {
    var all := stored + pending;
    forall i: nat ensures ChunkFits(all, blob, content, i) {
      assert ChunkFits(stored, blob, content, i);
    }
    forall i: nat | i < n ensures ChunkThere(all, blob, i) {
      assert ChunkThere(stored, blob, i) || ChunkThere(pending, blob, i);
    }
  }

  lemma AllWritten(stored: Chunks, blob: BlobId, content: seq<byte>)
    requires Writing(stored, map[], blob, content, ChunkCount(|content|))
    ensures Complete(stored, blob, content)
  {
  }

  /** The bytes io.ReadFull finds for the next buffer are the next chunk. */
  lemma NextBuffer(content: seq<byte>, n: nat)
    ensures n * CHUNK_SIZE < |content| <==> n < ChunkCount(|content|)
    ensures n < ChunkCount(|content|) ==>
      content[n * CHUNK_SIZE..Min((n + 1) * CHUNK_SIZE, |content|)] == ChunkAt(content, n)
    ensures n < ChunkCount(|content|) && (n + 1) * CHUNK_SIZE > |content| ==> n + 1 == ChunkCount(|content|)
  {
  }
}
