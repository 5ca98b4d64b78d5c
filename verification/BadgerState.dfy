/** The key space of the Badger driver, the invariant that no file lacks its data, and what concurrent
    operations may do to one another. */
module BadgerState {
  import opened Paths
  import opened Disk
  import opened Namespace
  import opened IndexFiles
  import opened Blobs

  /** internalMeta */
  datatype Record = Record(meta: Row, blob: BlobId)

  type Files = map<string, Record>

  /** meta:{path}, index:{id} and blob:{id}{number} keys. */
  datatype Db = Db(files: Files, index: map<Id, string>, chunks: Chunks)

  // ----- No dangling blobs -----

  ghost predicate Whole(chunks: Chunks, r: Record) {
    exists content :: |content| == r.meta.size && Complete(chunks, r.blob, content)
  }

  /** The record has its data, unless its blob is one of the lost ones, of which nothing is left. */
  ghost predicate HasOrLost(chunks: Chunks, lost: set<BlobId>, r: Record) {
    if r.blob in lost then r.meta.size > 0 && Absent(chunks, r.blob) else Whole(chunks, r)
  }

  ghost predicate Kept(db: Db, published: set<BlobId>, lost: set<BlobId>, k: string) {
    k in db.files ==>
      && db.files[k].meta.path == k
      && (!db.files[k].meta.isDir ==>
            db.files[k].blob in published && HasOrLost(db.chunks, lost, db.files[k]) && Representable(db.files[k].meta.size))
  }

  /** The size does not exhaust the 32-bit chunk numbers. */
  predicate Representable(size: int) {
    size <= MAX_CHUNKS * CHUNK_SIZE
  }

  predicate Separate(files: Files, j: string, k: string) {
    j in files && k in files && j != k && !files[j].meta.isDir && !files[k].meta.isDir ==> files[j].blob != files[k].blob
  }

  /** Every file owns a blob of its own, and that blob is complete. `published` are the blobs that have ever
      belonged to a file, and `lost` those that a move has deleted together with what it replaced although it went
      on to put their file back; every operation keeps this for a `lost` of its own, and only such a move adds to
      it. */
  ghost predicate Safe(db: Db, published: set<BlobId>, lost: set<BlobId>) {
    && lost <= published
    && (forall k {:trigger Kept(db, published, lost, k)} :: Kept(db, published, lost, k))
    && (forall j, k {:trigger Separate(db.files, j, k)} :: Separate(db.files, j, k))
  }

  /** The ID of the record at k leads to k. */
  ghost predicate FindableAt(db: Db, k: string) {
    k in db.files ==> db.files[k].meta.id in db.index && db.index[db.files[k].meta.id] == k
  }

  /** Every record is found by its ID, so no two records share one. */
  ghost predicate Findable(db: Db) {
    forall k {:trigger FindableAt(db, k)} :: FindableAt(db, k)
  }

  /** What every operation keeps, without the history of the blobs. */
  ghost predicate Sound(db: Db) {
    Findable(db) && exists published, lost :: Safe(db, published, lost)
  }

  lemma IdsDiffer(db: Db, j: string, k: string)
    requires Findable(db) && j in db.files && k in db.files
    ensures db.files[j].meta.id == db.files[k].meta.id ==> j == k
  {
    assert FindableAt(db, j) && FindableAt(db, k);
  }

  ghost predicate References(files: Files, b: BlobId) {
    exists k :: k in files && !files[k].meta.isDir && files[k].blob == b
  }

  /** What a user sees of a file: its data, which its size measures. */
  lemma SafeHasContent(db: Db, published: set<BlobId>, lost: set<BlobId>, k: string) returns (content: seq<byte>)
    requires Safe(db, published, lost) && k in db.files && !db.files[k].meta.isDir && db.files[k].blob !in lost
    ensures Representable(|content|) && db.files[k].blob in published
    ensures |content| == db.files[k].meta.size && Complete(db.chunks, db.files[k].blob, content)
    ensures Joined(db.chunks, db.files[k].blob, ChunkCount(|content|)) == content
  {
    assert Kept(db, published, lost, k);
    content :| |content| == db.files[k].meta.size && Complete(db.chunks, db.files[k].blob, content);
    CompleteJoins(db.chunks, db.files[k].blob, content, ChunkCount(|content|));
    assert content[..|content|] == content;
  }

  // ----- Interference -----

  predicate SameChunk(a: Chunks, b: Chunks, key: ChunkKey) {
    (key in a <==> key in b) && (key in a ==> a[key] == b[key])
  }

  /** Every chunk of the blob is the same. */
  ghost predicate SameBlob(a: Chunks, b: Chunks, x: BlobId) {
    forall i: nat {:trigger ChunkKey(x, i)} :: SameChunk(a, b, ChunkKey(x, i))
  }

  predicate OnlyVanished(a: Chunks, b: Chunks, key: ChunkKey) {
    key in b ==> key in a && b[key] == a[key]
  }

  /** What others may do while an operation holds the unpublished blobs `mine`: they leave those alone,
      chunks of published blobs at most vanish, and a blob that no file uses is never used again. */
  ghost predicate Evolves(a: Db, pa: set<BlobId>, b: Db, pb: set<BlobId>, mine: set<BlobId>) {
    && pa <= pb && mine !! pb
    && (forall key: ChunkKey {:trigger SameChunk(a.chunks, b.chunks, key)} :: key.blob in mine ==> SameChunk(a.chunks, b.chunks, key))
    && (forall key: ChunkKey {:trigger OnlyVanished(a.chunks, b.chunks, key)} :: key.blob in pa ==> OnlyVanished(a.chunks, b.chunks, key))
    && (forall x {:trigger References(b.files, x)} :: x in pa && References(b.files, x) ==> References(a.files, x))
  }

  /** What a step of an operation that holds `own` does. */
  ghost predicate Step(a: Db, pa: set<BlobId>, b: Db, pb: set<BlobId>, own: set<BlobId>) {
    && pa <= pb <= pa + own && own !! pa
    && (forall key: ChunkKey {:trigger SameChunk(a.chunks, b.chunks, key)} ::
          key.blob !in own && key.blob !in pa ==> SameChunk(a.chunks, b.chunks, key))
    && (forall key: ChunkKey {:trigger OnlyVanished(a.chunks, b.chunks, key)} :: key.blob in pa ==> OnlyVanished(a.chunks, b.chunks, key))
    && (forall x {:trigger References(b.files, x)} :: x in pa && References(b.files, x) ==> References(a.files, x))
  }

  /** Every step is interference that other operations can live with, as internal IDs are never generated
      twice. */
  lemma StepIsInterference(a: Db, pa: set<BlobId>, b: Db, pb: set<BlobId>, own: set<BlobId>, mine: set<BlobId>)
    requires Step(a, pa, b, pb, own) && mine !! own && mine !! pa
    ensures Evolves(a, pa, b, pb, mine)
  {
  }

  lemma EvolvesTransitive(a: Db, pa: set<BlobId>, b: Db, pb: set<BlobId>, c: Db, pc: set<BlobId>, mine: set<BlobId>)
    requires Evolves(a, pa, b, pb, mine) && Evolves(b, pb, c, pc, mine)
    ensures Evolves(a, pa, c, pc, mine)
  {
    forall key: ChunkKey | key.blob in mine ensures SameChunk(a.chunks, c.chunks, key) {
      assert SameChunk(a.chunks, b.chunks, key) && SameChunk(b.chunks, c.chunks, key);
    }
    forall key: ChunkKey | key.blob in pa ensures OnlyVanished(a.chunks, c.chunks, key) {
      assert OnlyVanished(a.chunks, b.chunks, key) && OnlyVanished(b.chunks, c.chunks, key);
    }
    forall x | x in pa && References(c.files, x) ensures References(a.files, x) {
      assert References(b.files, x);
    }
  }

  lemma EvolvesSame(a: Db, pa: set<BlobId>, mine: set<BlobId>)
    requires mine !! pa
    ensures Evolves(a, pa, a, pa, mine)
  {
  }

  lemma EvolvesForFewer(a: Db, pa: set<BlobId>, b: Db, pb: set<BlobId>, mine: set<BlobId>, fewer: set<BlobId>)
    requires Evolves(a, pa, b, pb, mine) && fewer <= mine
    ensures Evolves(a, pa, b, pb, fewer)
  {
  }

  /** What is stored under an unpublished blob stays as it is. */
  lemma MineStays(a: Db, pa: set<BlobId>, b: Db, pb: set<BlobId>, mine: set<BlobId>, x: BlobId, content: seq<byte>)
    requires Evolves(a, pa, b, pb, mine) && x in mine
    ensures Complete(a.chunks, x, content) ==> Complete(b.chunks, x, content)
    ensures PartOf(a.chunks, x, content) ==> PartOf(b.chunks, x, content)
    ensures forall i: nat :: ChunkThere(a.chunks, x, i) <==> ChunkThere(b.chunks, x, i)
  {
    forall i: nat
      ensures ChunkFits(a.chunks, x, content, i) <==> ChunkFits(b.chunks, x, content, i)
      ensures ChunkThere(a.chunks, x, i) <==> ChunkThere(b.chunks, x, i)
    {
      assert SameChunk(a.chunks, b.chunks, ChunkKey(x, i));
    }
  }

  /** What is stored under a published blob can only disappear: an open version never changes into another. */
  lemma VersionStays(a: Db, pa: set<BlobId>, b: Db, pb: set<BlobId>, mine: set<BlobId>, x: BlobId, content: seq<byte>)
    requires Evolves(a, pa, b, pb, mine) && x in pa && PartOf(a.chunks, x, content)
    ensures PartOf(b.chunks, x, content)
    ensures forall i: nat :: !ChunkThere(a.chunks, x, i) ==> !ChunkThere(b.chunks, x, i)
  {
    forall i: nat
      ensures ChunkFits(b.chunks, x, content, i)
      ensures !ChunkThere(a.chunks, x, i) ==> !ChunkThere(b.chunks, x, i)
    {
      assert OnlyVanished(a.chunks, b.chunks, ChunkKey(x, i)) && ChunkFits(a.chunks, x, content, i);
    }
  }

  // ----- The steps -----

  function WithoutBlobs(chunks: Chunks, blobs: set<BlobId>): (r: Chunks)
    ensures forall k :: k in r <==> k in chunks && k.blob !in blobs
    ensures forall k :: k in r ==> r[k] == chunks[k]
  {
    chunks - (set k | k in chunks && k.blob in blobs)
  }

  lemma CompleteUnlessTouched(a: Chunks, b: Chunks, x: BlobId, content: seq<byte>)
    requires Complete(a, x, content) && forall i: nat {:trigger SameChunk(a, b, ChunkKey(x, i))} :: SameChunk(a, b, ChunkKey(x, i))
    ensures Complete(b, x, content)
  {
    forall i: nat
      ensures ChunkFits(b, x, content, i)
      ensures i < ChunkCount(|content|) ==> ChunkThere(b, x, i)
    {
      assert SameChunk(a, b, ChunkKey(x, i)) && ChunkFits(a, x, content, i) && ChunkThere(a, x, i) == (ChunkKey(x, i) in a);
    }
  }

  lemma WholeUnlessTouched(a: Chunks, b: Chunks, r: Record)
    requires Whole(a, r) && forall i: nat {:trigger SameChunk(a, b, ChunkKey(r.blob, i))} :: SameChunk(a, b, ChunkKey(r.blob, i))
    ensures Whole(b, r)
  {
    var content :| |content| == r.meta.size && Complete(a, r.blob, content);
    CompleteUnlessTouched(a, b, r.blob, content);
  }

  lemma HeldUnlessTouched(a: Chunks, b: Chunks, lost: set<BlobId>, r: Record)
    requires HasOrLost(a, lost, r)
    requires forall i: nat {:trigger SameChunk(a, b, ChunkKey(r.blob, i))} :: SameChunk(a, b, ChunkKey(r.blob, i))
    ensures HasOrLost(b, lost, r)
  {
    if r.blob in lost {
      forall i: nat ensures !ChunkThere(b, r.blob, i) {
        assert SameChunk(a, b, ChunkKey(r.blob, i)) && !ChunkThere(a, r.blob, i);
      }
    } else {
      WholeUnlessTouched(a, b, r);
    }
  }

  /** Changing chunks of blobs that no file uses. */
  lemma ChunksStep(db: Db, published: set<BlobId>, lost: set<BlobId>, chunks: Chunks, own: set<BlobId>, touched: set<BlobId>)
    requires Safe(db, published, lost) && own !! published
    requires forall x :: x in touched ==> x in own || (x in published && !References(db.files, x))
    requires forall key: ChunkKey {:trigger SameChunk(db.chunks, chunks, key)} :: key.blob !in touched ==> SameChunk(db.chunks, chunks, key)
    requires forall key: ChunkKey {:trigger OnlyVanished(db.chunks, chunks, key)} :: key.blob in published ==> OnlyVanished(db.chunks, chunks, key)
    ensures Safe(db.(chunks := chunks), published, lost)
    ensures Step(db, published, db.(chunks := chunks), published, own)
  {
    var db' := db.(chunks := chunks);
    forall k ensures Kept(db', published, lost, k) {
      assert Kept(db, published, lost, k);
      if k in db.files && !db.files[k].meta.isDir {
        assert References(db.files, db.files[k].blob);
        HeldUnlessTouched(db.chunks, chunks, lost, db.files[k]);
      }
    }
    forall j, k ensures Separate(db'.files, j, k) {
      assert Separate(db.files, j, k);
    }
  }
}
