/** The Badger driver: every operation as a run of atomic transactions, with other operations in between. */
module BadgerDriver {
  import opened Paths
  import opened Disk
  import opened Namespace
  import opened RootDirectory
  import opened IndexFiles
  import opened Blobs
  import opened BadgerState
  import opened BadgerTransactions
  import opened BadgerMoves
  import opened BadgerCopies

  /** The directory a path lies in, with its slash. */
  function ParentString(path: string): string {
    UpToSlash(TrimSlash(path))
  }

  function UpToSlash(s: string): string {
    if s == "" then "/" else if s[|s| - 1] == '/' then s else UpToSlash(s[..|s| - 1])
  }

  function Rooted(value: string): string {
    if value != "" && value[0] == '/' then value else "/" + value
  }

  /** Adding a record for a blob of one's own. */
  lemma AddSafe(t: Db, published: set<BlobId>, lost: set<BlobId>, r: Record, own: set<BlobId>)
    requires Safe(t, published, lost) && own !! published
    requires !r.meta.isDir ==> r.blob in own && Whole(t.chunks, r) && Representable(r.meta.size)
    ensures
      var t', published' := AddRecord(t, r), if r.meta.isDir then published else published + {r.blob};
      Safe(t', published', lost) && Step(t, published, t', published', own)
  {
    var t', published' := AddRecord(t, r), if r.meta.isDir then published else published + {r.blob};
    forall k ensures Kept(t', published', lost, k) {
      assert Kept(t, published, lost, k);
    }
    forall j, k ensures Separate(t'.files, j, k) {
      assert Separate(t.files, j, k) && Kept(t, published, lost, j) && Kept(t, published, lost, k);
    }
    forall x | x in published && References(t'.files, x) ensures References(t.files, x) {
      var k :| k in t'.files && !t'.files[k].meta.isDir && t'.files[k].blob == x;
      assert k in t.files && t.files[k].blob == x;
    }
  }

  lemma ChunksFindable(t: Db, chunks: Chunks)
    requires Findable(t)
    ensures Findable(t.(chunks := chunks))
  {
    var t' := t.(chunks := chunks);
    forall k ensures FindableAt(t', k) { assert FindableAt(t, k); }
  }

  lemma SameIdFindable(t: Db, path: string, r: Record)
    requires Findable(t) && path in t.files && r.meta.id == t.files[path].meta.id
    ensures Findable(t.(files := t.files[path := r]))
  {
    var t' := t.(files := t.files[path := r]);
    forall k ensures FindableAt(t', k) { assert FindableAt(t, k); }
  }

  /** No file lacks its data. */
  ghost predicate Intact(files: Files, lost: set<BlobId>) {
    forall k :: k in files && !files[k].meta.isDir ==> files[k].blob !in lost
  }

  /** A content that what is stored of the file is part of: its own, unless its blob is lost and nothing is stored. */
  lemma SafeVersion(t: Db, published: set<BlobId>, lost: set<BlobId>, k: string) returns (content: seq<byte>)
    requires Safe(t, published, lost) && k in t.files && !t.files[k].meta.isDir
    ensures |content| == t.files[k].meta.size && Representable(|content|) && PartOf(t.chunks, t.files[k].blob, content)
    ensures t.files[k].blob in published
    ensures t.files[k].blob !in lost ==> Complete(t.chunks, t.files[k].blob, content)
    ensures t.files[k].blob in lost ==> |content| > 0 && Absent(t.chunks, t.files[k].blob)
  {
    assert Kept(t, published, lost, k);
    if t.files[k].blob in lost {
      content := seq(t.files[k].meta.size, _ => 0);
      forall i: nat ensures ChunkFits(t.chunks, t.files[k].blob, content, i) {
        assert !ChunkThere(t.chunks, t.files[k].blob, i);
      }
    } else {
      content := SafeHasContent(t, published, lost, k);
      CompleteIsPart(t.chunks, t.files[k].blob, content);
    }
  }

  /** Every stored chunk belongs to an internal ID that has been generated. */
  ghost predicate Generated(chunks: Chunks, generated: set<BlobId>) {
    forall k :: k in chunks ==> k.blob in generated
  }

  /** Only chunks of the blob differ. */
  ghost predicate OnlyBlob(a: Db, b: Db, blob: BlobId) {
    && a.files == b.files && a.index == b.index
    && forall key: ChunkKey {:trigger SameChunk(a.chunks, b.chunks, key)} :: key.blob != blob ==> SameChunk(a.chunks, b.chunks, key)
  }

  /** Only chunks of these blobs differ. */
  ghost predicate OnlyAmong(a: Db, b: Db, blobs: seq<BlobId>) {
    && a.files == b.files && a.index == b.index
    && forall key: ChunkKey {:trigger SameChunk(a.chunks, b.chunks, key)} :: key.blob !in blobs ==> SameChunk(a.chunks, b.chunks, key)
  }

  /** Only chunks of blobs that were not known differ. */
  ghost predicate OnlyNew(a: Db, b: Db, known: set<BlobId>) {
    && a.files == b.files && a.index == b.index
    && forall key: ChunkKey {:trigger SameChunk(a.chunks, b.chunks, key)} :: key.blob in known ==> SameChunk(a.chunks, b.chunks, key)
  }

  /** Why Create or Mkdir refuses a path, if it does. */
  function NewRefusal(files: Files, path: string): Option<Error> {
    var parent := ParentString(path);
    var directory := FindByPath(files, parent);
    if parent != "/" && directory.None? then Some(NotFound)
    else if parent != "/" && !directory.value.meta.isDir then Some(NotDir)
    else if path in files then Some(AlreadyExists)
    else None
  }

  /** The key under which Create or Mkdir puts a new entry; only the ends of the argument are tidied up. */
  function NewKey(value: string, isDir: bool): Option<string> {
    var v := TrimSpace(value);
    if isDir then if v == "" || v == "/" then None else Some(WithSlash(Rooted(v)))
    else if value == "/" then None
    else Some(Rooted(v))
  }

  /** Why Create or Mkdir refuses, if it does. */
  function NewValueRefusal(files: Files, value: string, isDir: bool): Option<Error> {
    match NewKey(value, isDir) case None => Some(InvalidPath) case Some(k) => NewRefusal(files, k)
  }

  class BadgerVFS {
    /** Whether every call into Badger succeeds, and whether no other operation runs. */
    const reliable: bool
    const alone: bool
    var db: Db
    /** The internal IDs generated so far; uuid.NewV4 never returns one of them again. */
    var generated: set<BlobId>
    /** Those that have ever belonged to a file. */
    ghost var published: set<BlobId>
    /** Those of files that a move has left without their data. */
    ghost var lost: set<BlobId>

    /** What every operation keeps, whatever a move does to its source. */
    ghost predicate Valid()
      reads this
    {
      Safe(db, published, lost) && Findable(db) && published <= generated && Generated(db.chunks, generated)
    }

    /** The operation may keep these internal IDs to itself. */
    ghost predicate Holds(mine: set<BlobId>)
      reads this
    {
      mine <= generated && mine !! published
    }

    constructor (reliable: bool, alone: bool)
      ensures Valid() && lost == {} && db == Db(map[], map[], map[]) && this.reliable == reliable && this.alone == alone
    {
      this.reliable, this.alone := reliable, alone;
      db, generated, published, lost := Db(map[], map[], map[]), {}, {}, {};
    }

    /** How the next call into Badger, or the next read of the request body, ends. */
    method Fate() returns (r: Outcome)
      ensures reliable ==> r.Done?
      ensures r.Failed? ==> r.error == IO
    {
      if reliable { r := Done; } else if * { r := Done; } else if * { r := Failed(IO); } else { r := Crashed; }
    }

    /** Other operations take their steps here. The contract is all that callers know: each step of another
        operation, a Move that deletes its own source included, is a Step, and StepIsInterference turns that into
        what is promised here. */
    method Interfere(ghost mine: set<BlobId>)
      requires Valid() && Holds(mine)
      modifies this
      ensures Valid() && Holds(mine) && Evolves(old(db), old(published), db, published, mine)
      ensures old(generated) <= generated && old(lost) <= lost
      ensures alone ==> db == old(db) && published == old(published) && lost == old(lost) && generated == old(generated)
    {
      EvolvesSame(db, published, mine);
    }

    /** uuid.NewV4 for a blob. */
    method FreshBlob(ghost mine: set<BlobId>) returns (b: BlobId)
      requires Valid() && Holds(mine)
      modifies this`generated
      ensures Valid() && Holds(mine + {b}) && b != NIL && b !in mine && Absent(db.chunks, b)
      ensures b !in old(generated) && old(generated) <= generated
    {
      ghost var n := Bound(generated + {NIL});
      assert n !in generated && n != NIL;
      b :| b != NIL && b !in generated;
      forall i: nat ensures !ChunkThere(db.chunks, b, i) {
        assert ChunkKey(b, i) in db.chunks ==> ChunkKey(b, i).blob in generated;
      }
      generated := generated + {b};
    }

    // ----- Blobs -----

    /** One flush of a write batch. */
    method StoreBatch(pending: Chunks, blob: BlobId, ghost own: set<BlobId>) returns (r: Outcome)
      requires Valid() && Holds(own) && blob in own && forall k :: k in pending ==> k.blob == blob
      modifies this`db
      ensures Valid() && Step(old(db), published, db, published, own) && db.files == old(db).files && db.index == old(db).index
      ensures r.Done? ==> db.chunks == old(db).chunks + pending
      ensures OnlyBlob(old(db), db, blob) && (reliable ==> r.Done?)
      ensures !r.Done? ==> db == old(db)
      ensures r.Failed? ==> r.error == IO
    {
      ghost var chunks := db.chunks + pending;
      ChunksStep(db, published, lost, db.chunks, own, {});
      ChunksStep(db, published, lost, chunks, own, {blob});
      assert db.(chunks := db.chunks) == db;
      ChunksFindable(db, chunks);
      r := Fate();
      if r.Done? { db := db.(chunks := db.chunks + pending); }
    }

    /** deleteChunks */
    method DropChunks(blob: BlobId, ghost own: set<BlobId>) returns (r: Outcome)
      requires Valid() && Holds(own) && (blob in own || (blob in published && !References(db.files, blob)))
      modifies this`db
      ensures Valid() && Step(old(db), published, db, published, own) && db.files == old(db).files && db.index == old(db).index
      ensures r.Done? ==> Absent(db.chunks, blob)
      ensures OnlyBlob(old(db), db, blob) && (reliable ==> r.Done?)
      ensures r.Failed? ==> r.error == IO
    {
      ghost var chunks := WithoutBlobs(db.chunks, {blob});
      ChunksStep(db, published, lost, db.chunks, own, {});
      ChunksStep(db, published, lost, chunks, own, {blob});
      assert db.(chunks := db.chunks) == db;
      ChunksFindable(db, chunks);
      r := Fate();
      if r.Done? { db := db.(chunks := WithoutBlobs(db.chunks, {blob})); }
    }

    /** writeChunks. The batch may be flushed at any time; until the last flush the blob is incomplete, which
        is harmless because no file refers to it. */
    method WriteChunks(blob: BlobId, content: seq<byte>, ghost own: set<BlobId>) returns (r: Outcome, size: nat)
      requires Valid() && Holds(own) && blob in own && Absent(db.chunks, blob)
      requires |content| <= MAX_CHUNKS * CHUNK_SIZE
      modifies this
      ensures Valid() && Holds(own) && old(generated) <= generated && old(lost) <= lost
      ensures Evolves(old(db), old(published), db, published, own - {blob})
      ensures r.Done? ==> Complete(db.chunks, blob, content) && size == |content|
      ensures alone ==> OnlyBlob(old(db), db, blob) && published == old(published) && lost == old(lost)
      ensures reliable ==> r.Done?
      ensures r.Failed? ==> r.error == IO
    {
      var n := 0;
      var pending: Chunks := map[];
      size := 0;
      NothingWritten(db.chunks, blob, content);
      EvolvesSame(db, published, own - {blob});
      while true
        invariant Valid() && Holds(own) && old(generated) <= generated && old(lost) <= lost
        invariant Evolves(old(db), old(published), db, published, own - {blob})
        invariant alone ==> OnlyBlob(old(db), db, blob) && published == old(published) && lost == old(lost)
        invariant Writing(db.chunks, pending, blob, content, n) && size == Min(n * CHUNK_SIZE, |content|)
        decreases |content| + CHUNK_SIZE - n * CHUNK_SIZE
      {
        NextBuffer(content, n);
        if n * CHUNK_SIZE >= |content| { break; }
        r := Fate();
        if !r.Done? { return; }
        var buffer := content[n * CHUNK_SIZE..Min((n + 1) * CHUNK_SIZE, |content|)];
        NextPending(db.chunks, pending, blob, content, n);
        pending := pending[ChunkKey(blob, n) := buffer];
        size := size + |buffer|;
        n := n + 1;
        if * {
          ghost var d, p := db, published;
          r := FlushBatch(pending, blob, content, n, own);
          EvolvesTransitive(old(db), old(published), d, p, db, published, own - {blob});
          if alone { OnlyBlobTwice(old(db), d, db, blob); }
          if !r.Done? { return; }
          pending := map[];
        }
      }
      ghost var d, p := db, published;
      r := FlushBatch(pending, blob, content, n, own);
      EvolvesTransitive(old(db), old(published), d, p, db, published, own - {blob});
      if alone { OnlyBlobTwice(old(db), d, db, blob); }
      if r.Done? {
        NextBuffer(content, n);
        AllWritten(db.chunks, blob, content);
      }
    }

    /** A flush, before and after which others take steps. */
    method FlushBatch(pending: Chunks, blob: BlobId, ghost content: seq<byte>, ghost n: nat,
        ghost own: set<BlobId>) returns (r: Outcome)
      requires Valid() && Holds(own) && blob in own && Writing(db.chunks, pending, blob, content, n)
      modifies this
      ensures Valid() && Holds(own) && old(generated) <= generated && old(lost) <= lost
      ensures Evolves(old(db), old(published), db, published, own - {blob})
      ensures r.Done? ==> Writing(db.chunks, map[], blob, content, n)
      ensures alone ==> OnlyBlob(old(db), db, blob) && published == old(published) && lost == old(lost)
      ensures reliable ==> r.Done?
      ensures r.Failed? ==> r.error == IO
    {
      Interfere(own);
      WritingStays(old(db), old(published), db, published, own, pending, blob, content, n);
      EvolvesForFewer(old(db), old(published), db, published, own, own - {blob});
      ghost var d, p := db, published;
      r := StoreBatch(pending, blob, own);
      StepOfMine(d, p, db, published, own, blob);
      EvolvesTransitive(old(db), old(published), d, p, db, published, own - {blob});
      if r.Done? { Flushed(d.chunks, pending, blob, content, n); }
    }

    // ----- Operations -----

    /** The transaction of Create. */
    method CommitCreate(path: string, size: nat, now: int, blob: BlobId, ghost content: seq<byte>,
        ghost own: set<BlobId>)
      returns (r: Outcome, record: Record)
      requires Valid() && Holds(own) && blob in own && |content| == size && Complete(db.chunks, blob, content)
      requires Representable(size)
      modifies this`db, this`published
      ensures Valid() && Step(old(db), old(published), db, published, own)
      ensures r.Done? ==>
        && path !in old(db).files && record == Record(Row(record.meta.id, path, false, BaseName(path), size, now, ""), blob)
        && record.meta.id != NIL && record.meta.id !in old(db).index && db == AddRecord(old(db), record)
        && published == old(published) + {blob}
      ensures !r.Done? ==> db == old(db) && published == old(published)
      ensures r.Done? ==> NewRefusal(old(db).files, path).None?
      ensures r.Failed? ==> r.error == IO || NewRefusal(old(db).files, path) == Some(r.error)
      ensures reliable ==> r == Verdict(NewRefusal(old(db).files, path))
    {
      hide UpToSlash, BaseName, Complete;
      record := Record(Row(NIL, path, false, BaseName(path), size, now, ""), blob);
      ghost var chunks := db.chunks;
      ChunksStep(db, published, lost, chunks, own, {});
      assert db.(chunks := chunks) == db;
      r := Fate();
      if !r.Done? { return; }
      var parent := ParentString(path);
      if parent != "/" {
        var directory := FindByPath(db.files, parent);
        if directory.None? { return Failed(NotFound), record; }
        if !directory.value.meta.isDir { return Failed(NotDir), record; }
      }
      if path in db.files { return Failed(AlreadyExists), record; }
      var id := FreshId();
      record := Record(record.meta.(id := id), blob);
      assert Whole(db.chunks, record);
      AddSafe(db, published, lost, record, own);
      AddFindable(db, record);
      db := AddRecord(db, record);
      published := published + {blob};
    }

    /** uuid.NewV4 for an entry. */
    method FreshId() returns (id: Id)
      ensures id != NIL && id !in db.index
    {
      ghost var n := Bound(db.index.Keys + {NIL});
      assert n !in db.index.Keys && n != NIL;
      id :| id != NIL && id !in db.index;
    }

    /** Create: chunks first, then the transaction that makes them a file. `before` is the store just before
        that transaction. Any failure leaves at most chunks that no file refers to. */
    method Create(value: string, content: seq<byte>, now: int) returns (r: Outcome, record: Record, ghost before: Db)
      requires Valid() && |content| <= MAX_CHUNKS * CHUNK_SIZE
      modifies this
      ensures Valid() && published <= generated
      ensures r.Done? ==>
        && Some(record) == FileOf(db, record.meta.path) && NewKey(value, false) == Some(record.meta.path)
        && record.meta == Row(record.meta.id, record.meta.path, false, BaseName(record.meta.path), |content|, now, "")
        && record.meta.id != NIL && record.meta.id !in before.index
        && record.meta.path !in before.files && db == AddRecord(before, record)
        && Complete(db.chunks, record.blob, content) && record.blob !in old(generated)
        && NewValueRefusal(before.files, value, false).None?
      ensures r.Failed? ==> r.error == IO || NewValueRefusal(before.files, value, false) == Some(r.error)
      ensures reliable ==> r == Verdict(NewValueRefusal(before.files, value, false))
      ensures alone ==> OnlyNew(old(db), before, old(generated)) && (!r.Done? ==> OnlyNew(old(db), db, old(generated)))
      ensures alone ==> lost == old(lost)
      ensures reliable && alone && !r.Done? ==> db == old(db)
    {
      hide TrimSpace, Evolves, Step, Complete, Absent, Safe, NewRefusal, BaseName;
      before, record := db, Record(Row(NIL, "", false, "", 0, now, ""), NIL);
      if value == "/" { return Failed(InvalidPath), record, before; }
      var path := Rooted(TrimSpace(value));
      assert {} !! published;
      var blob := FreshBlob({});
      ghost var own := {blob};
      assert {} + {blob} == own;
      var size;
      r, size := WriteChunks(blob, content, own);
      if alone { OnlyBlobIsNew(old(db), db, blob, old(generated)); }
      if r.Crashed? { return; }
      ghost var d, q := db, published;
      if r.Failed? {
        var cleanup := DropChunks(blob, own);
        if alone { DropIsNew(old(db), d, db, blob, old(generated)); }
        return;
      }
      Interfere(own);
      MineStays(d, q, db, published, own, blob, content);
      before := db;
      r, record := CommitCreate(path, size, now, blob, content, own);
      if r.Failed? {
        var cleanup := DropChunks(blob, own);
        if alone { DropIsNew(old(db), before, db, blob, old(generated)); }
        if alone { CleanedUp(old(db), before, db, blob); }
      }
    }

    /** Why Write refuses, if it does. */
    static function WriteRefusal(t: Db, id: Id): Option<Error> {
      match FindById(t, id) case None => Some(NotFound) case Some(r) => if r.meta.isDir then Some(AlreadyExists) else None
    }

    /** The transaction of Write: the file takes over the new blob. */
    method CommitWrite(id: Id, size: nat, now: int, blob: BlobId, ghost content: seq<byte>, ghost own: set<BlobId>)
      returns (r: Outcome, oldBlob: BlobId, path: string)
      requires Valid() && Holds(own) && blob in own && |content| == size && Complete(db.chunks, blob, content)
      requires Representable(size)
      modifies this`db, this`published
      ensures Valid() && Step(old(db), old(published), db, published, own)
      ensures r.Done? ==>
        && id in old(db).index && path == old(db).index[id] && path in old(db).files && !old(db).files[path].meta.isDir
        && oldBlob == old(db).files[path].blob && oldBlob in published && !References(db.files, oldBlob)
        && db == old(db).(files := old(db).files[path := Record(old(db).files[path].meta.(size := size, modified := now), blob)])
        && published == old(published) + {blob}
      ensures !r.Done? ==> db == old(db) && published == old(published)
      ensures r.Failed? ==> r.error == IO || WriteRefusal(old(db), id) == Some(r.error)
      ensures reliable ==> r == Verdict(WriteRefusal(old(db), id))
    {
      hide Complete;
      oldBlob, path := NIL, "";
      ghost var chunks := db.chunks;
      ChunksStep(db, published, lost, chunks, own, {});
      assert db.(chunks := chunks) == db;
      r := Fate();
      if !r.Done? { return; }
      var found := FindById(db, id);
      if found.None? { return Failed(NotFound), oldBlob, path; }
      if found.value.meta.isDir { return Failed(AlreadyExists), oldBlob, path; }
      path, oldBlob := db.index[id], found.value.blob;
      assert Kept(db, published, lost, path);
      var record := Record(found.value.meta.(size := size, modified := now), blob);
      assert Whole(db.chunks, record);
      SwapSafe(db, published, lost, path, record, own);
      SameIdFindable(db, path, record);
      db := db.(files := db.files[path := record]);
      published := published + {blob};
    }

    /** Write: new chunks, the swap, and then the old chunks go. `swapped` is the store just after the swap. */
    method Write(id: Id, content: seq<byte>, now: int) returns (r: Outcome, committed: bool, path: string,
        ghost before: Db, ghost swapped: Db)
      requires Valid() && |content| <= MAX_CHUNKS * CHUNK_SIZE
      modifies this
      ensures Valid()
      ensures r.Done? ==> committed
      ensures committed ==>
        && FindById(before, id).Some? && path == before.index[id] && !before.files[path].meta.isDir
        && path in swapped.files && swapped.index == before.index && swapped.chunks == before.chunks
        && swapped.files == before.files[path := Record(before.files[path].meta.(size := |content|, modified := now), swapped.files[path].blob)]
        && Complete(swapped.chunks, swapped.files[path].blob, content) && swapped.files[path].blob !in old(generated)
      ensures r.Done? ==> Absent(db.chunks, before.files[path].blob)
      ensures r.Failed? ==> r.error == IO || (!committed && WriteRefusal(before, id) == Some(r.error))
      ensures reliable ==> r == Verdict(WriteRefusal(before, id))
      ensures alone ==> OnlyNew(old(db), before, old(generated))
      ensures alone ==> if committed then OnlyBlob(swapped, db, before.files[path].blob) else OnlyNew(old(db), db, old(generated))
      ensures alone ==> lost == old(lost)
      ensures reliable && alone && !committed ==> db == old(db)
    {
      hide Evolves, Step, Complete, Absent, Safe;
      before, swapped, committed, path := db, db, false, "";
      var blob := FreshBlob({});
      ghost var own := {blob};
      assert {} + {blob} == own;
      var size;
      r, size := WriteChunks(blob, content, own);
      if alone { OnlyBlobIsNew(old(db), db, blob, old(generated)); }
      if r.Crashed? { return; }
      ghost var d, q := db, published;
      if r.Failed? {
        var cleanup := DropChunks(blob, own);
        if alone { DropIsNew(old(db), d, db, blob, old(generated)); }
        return;
      }
      Interfere(own);
      MineStays(d, q, db, published, own, blob, content);
      before := db;
      var oldBlob;
      r, oldBlob, path := CommitWrite(id, size, now, blob, content, own);
      if r.Failed? {
        var cleanup := DropChunks(blob, own);
        if alone { DropIsNew(old(db), before, db, blob, old(generated)); }
        if alone { CleanedUp(old(db), before, db, blob); }
        return;
      }
      if !r.Done? { return; }
      committed, swapped := true, db;
      ghost var e, p := db, published;
      Interfere({});
      StillUnused(e, p, db, published, {}, oldBlob);
      r := DropChunks(oldBlob, {});
    }

    method WriteComments(id: Id, comments: string) returns (r: Outcome)
      requires Valid()
      modifies this`db
      ensures Valid() && Step(old(db), published, db, published, {})
      ensures r.Done? ==> FindById(old(db), id).Some?
      ensures r.Failed? ==> r.error == IO || (r.error == NotFound && FindById(old(db), id).None?)
      ensures reliable && FindById(old(db), id).Some? ==> r.Done?
      ensures r.Done? ==> var key := old(db).index[id];
        && db == old(db).(files := db.files) && db.files.Keys == old(db).files.Keys
        && (forall k :: k in db.files && k != key ==> db.files[k] == old(db).files[k])
        && db.files[key].meta == old(db).files[key].meta.(comments := comments) && db.files[key].blob == old(db).files[key].blob
      ensures !r.Done? ==> db == old(db)
    {
      ShrinksIsStep(db, db, published, {});
      r := Fate();
      if !r.Done? { return; }
      var found := FindById(db, id);
      if found.None? { return Failed(NotFound); }
      var record := Record(found.value.meta.(comments := comments), found.value.blob);
      assert Kept(db, published, lost, db.index[id]);
      CommentSafe(db, published, lost, db.index[id], record);
      CommentStep(db, published, db.index[id], comments);
      SameIdFindable(db, db.index[id], record);
      db := Commented(db, db.index[id], comments);
    }

    method Mkdir(value: string, now: int) returns (r: Outcome, record: Record)
      requires Valid()
      modifies this`db
      ensures Valid() && Step(old(db), published, db, published, {})
      ensures r.Done? ==>
        && NewKey(value, true) == Some(record.meta.path)
        && record.meta == Row(record.meta.id, record.meta.path, true, BaseName(record.meta.path), 0, now, "")
        && record.meta.id != NIL && record.meta.id !in old(db).index
        && record.meta.path !in old(db).files && db == AddRecord(old(db), record)
        && NewValueRefusal(old(db).files, value, true).None?
      ensures !r.Done? ==> db == old(db)
      ensures r.Failed? ==> r.error == IO || NewValueRefusal(old(db).files, value, true) == Some(r.error)
      ensures reliable ==> r == Verdict(NewValueRefusal(old(db).files, value, true))
    {
      hide TrimSpace, UpToSlash, BaseName, Safe;
      ShrinksIsStep(db, db, published, {});
      record := Record(Row(NIL, "", true, "", 0, now, ""), NIL);
      var trimmed := TrimSpace(value);
      if trimmed == "" || trimmed == "/" { return Failed(InvalidPath), record; }
      var path := WithSlash(Rooted(trimmed));
      r := Fate();
      if !r.Done? { return; }
      var parent := ParentString(path);
      if parent != "/" {
        var directory := FindByPath(db.files, parent);
        if directory.None? { return Failed(NotFound), record; }
        if !directory.value.meta.isDir { return Failed(NotDir), record; }
      }
      if path in db.files { return Failed(AlreadyExists), record; }
      var id := FreshId();
      record := Record(Row(id, path, true, BaseName(path), 0, now, ""), NIL);
      AddSafe(db, published, lost, record, {});
      AddFindable(db, record);
      db := AddRecord(db, record);
    }

    /** Delete: one transaction takes the entries, their index keys and their chunks. */
    method Delete(id: Id) returns (r: Outcome, ghost items: seq<Record>)
      requires Valid()
      modifies this`db
      ensures Valid() && Step(old(db), published, db, published, {})
      ensures r.Done? ==> FindById(old(db), id).Some? && Erased(old(db), items, db)
      ensures r.Done? ==> Deletes(old(db).files, FindById(old(db), id).value, items)
      ensures !r.Done? ==> db == old(db)
      ensures r.Failed? ==> r.error == IO || (r.error == NotFound && FindById(old(db), id).None?)
      ensures reliable && FindById(old(db), id).Some? ==> r.Done?
    {
      items := [];
      ShrinksIsStep(db, db, published, {});
      r := Fate();
      if !r.Done? { return; }
      var found := FindById(db, id);
      if found.None? { return Failed(NotFound), items; }
      assert Kept(db, published, lost, db.index[id]);
      SafeKeysMatch(db, published, lost);
      var victims := [found.value];
      if found.value.meta.isDir {
        victims := Scan(db.files, WithSlash(found.value.meta.path));
      }
      var next := DeleteItems(db, victims);
      EraseSafe(db, published, lost, victims, next);
      EraseFindable(db, victims, next);
      ShrinksIsStep(db, next, published, {});
      FewerChunks(db, next, published, generated);
      db := next;
      items := victims;
    }

    /** Move: one transaction, and always a step that others can live with. It leaves no file without its data
        exactly if the source is no file with data in the subtree it replaces. */
    method Move(id: Id, value: string, replace: Option<Id>, now: int) returns (r: Outcome, ghost m: Moving)
      requires Valid()
      modifies this`db, this`lost
      ensures Valid() && Step(old(db), published, db, published, {})
      ensures r.Done? ==> Moves(old(db), id, Rooted(TrimSpace(value)), replace, now, m, db)
      ensures r.Done? ==> lost == LostBy(old(db).files, m.src, m.dst, old(lost))
      ensures r.Done? ==> (Safe(db, published, old(lost)) <==> !Swallowed(old(db).files, m.src, m.dst) || m.src.blob in old(lost))
      ensures r.Done? ==> (NothingLost(old(db), m.src, m.dst, now, db) <==> !Loses(old(db), m.src, m.dst))
      ensures !r.Done? ==> db == old(db) && lost == old(lost)
      ensures reliable ==> r == Verdict(TransferRefusal(old(db), id, Rooted(TrimSpace(value)), replace))
    {
      hide TrimSpace, Safe, MovesVia, Swallowed, TransferRefusal, TransferPath, Clean, Split, Stored, FindByPath, Findable,
        NothingLost, Loses;
      m := Moving(Record(Row(NIL, "", true, "", 0, now, ""), NIL), "", [], []);
      ShrinksIsStep(db, db, published, {});
      r := Fate();
      if !r.Done? { return; }
      SafeKeysMatch(db, published, lost);
      ghost var before := db;
      var next;
      r, next, m := MoveBody(db, id, Rooted(TrimSpace(value)), replace, now);
      if r.Done? {
        MoveSafeIff(db, published, lost, id, now, m, next);
        ShrinksIsStep(db, next, published, {});
        MoveKeepsChunks(db, id, now, m, next);
        FewerChunks(db, next, {}, generated);
        AcceptedIsOutside(m.src, Rooted(TrimSpace(value)));
        MoveLosesNothingIff(db, published, lost, id, now, m, next);
        ghost var t1 :| MovesVia(db, now, m, t1, next);
        MoveKeepsFindable(db, published, lost, now, m, t1, next);
        lost := LostBy(db.files, m.src, m.dst, lost);
      }
      db := next;
    }

    /** Open: a reader of the version the file has now. */
    method Open(id: Id) returns (r: Outcome, reader: BlobReader?)
      requires Valid()
      ensures Valid()
      ensures r.Done? ==> FindById(db, id).Some?
      ensures r.Done? && !FindById(db, id).value.meta.isDir ==>
        && reader != null && fresh(reader) && reader.Valid() && reader.store == this && reader.offset == 0
        && reader.blob == FindById(db, id).value.blob && reader.size == FindById(db, id).value.meta.size
        && (reader.blob !in lost ==> Complete(db.chunks, reader.blob, reader.content))
      ensures reliable && FindById(db, id).Some? ==> r.Done?
    {
      hide Complete, Absent;
      reader := null;
      r := Fate();
      if !r.Done? { return; }
      var found := FindById(db, id);
      if found.None? { return Failed(NotFound), null; }
      if !found.value.meta.isDir {
        ghost var content := SafeVersion(db, published, lost, db.index[id]);
        reader := new BlobReader(this, found.value.blob, found.value.meta.size, content);
      }
    }

    // ----- Copy -----

    /** Copy. The closure reads the transaction's view and copies blobs outside of it; committing fails if a
        record it has read has changed by then, or a key it has found absent is there. `before` is the store at the commit. */
    method Copy(id: Id, value: string, replace: Option<Id>, now: int)
      returns (r: Outcome, ghost view: Db, ghost before: Db, ghost c: Copying)
      requires Valid()
      modifies this
      ensures Valid()
      ensures r.Done? ==> view == old(db) && CopyReads(view, id, value, if replace.None? then Some(NIL) else replace, c)
      ensures r.Done? ==> CopyWrites(view, before, now, c, db)
      ensures r.Done? ==>
        (CopyLosesNothing(view, before, c.src, c.dst, now, db) <==> !CopyLoses(view.files, before.files, c.src, c.dst))
      ensures alone ==> OnlyNew(old(db), before, old(generated)) && (!r.Done? ==> OnlyNew(old(db), db, old(generated)))
      ensures reliable && alone && r.Failed? ==> db == old(db)
      ensures reliable && alone && Intact(old(db).files, old(lost)) ==>
        r == Verdict(TransferRefusal(old(db), id, value, if replace.None? then Some(NIL) else replace))
    {
      hide TransferPath, Clean, Split, Stored, Safe, Findable, Sound, CopyWrites, Evolves, Step, GathersFrom, CheckReplacement, Erased,
        SameData, Whole, CopyLosesNothing, CopyLoses, KeysMatch;
      view, before, c := db, db, Copying(Record(Row(NIL, "", true, "", 0, now, ""), NIL), "", [], [], []);
      var expected := if replace.None? then Some(NIL) else replace;
      SafeKeysMatch(db, published, lost);
      var found := FindById(db, id);
      if found.None? { return Failed(NotFound), view, before, c; }
      var src := found.value;
      var path := TransferPath(Clean(Split(src.meta.path)), src.meta.isDir, value);
      if path.None? { return Failed(InvalidPath), view, before, c; }
      var dst := Stored(path.value, src.meta.isDir);
      var ok, victims, cleared := PrepareTransfer(db, dst, expected);
      if !ok { return Failed(AlreadyExists), view, before, c; }
      ClearedKeysMatch(db, victims, cleared, src);
      var items := TransferItems(cleared.files, src);
      GatheredDrawn(db, victims, cleared, src, items);
      ClearedDrawn(db, FindByPath(db.files, TrimSlash(dst)), victims, cleared);
      assert CopyReads(view, id, value, expected, Copying(src, dst, victims, items, []));
      var copies;
      r, before, copies := CopyAndCommit(items, victims, src.meta.path, dst, now, FindByPath(db.files, TrimSlash(dst)));
      c := Copying(src, dst, victims, items, copies);
      if r.Done? {
        CopyWritesHolds(view, before, now, c, db);
        CopyLosesNothingIff(view, before, expected, now, c, db);
      }
    }

    /** The blobs, and then the records. */
    method CopyAndCommit(items: seq<Record>, victims: seq<Record>, src: string, dst: string, now: int, target: Option<Record>)
      returns (r: Outcome, ghost before: Db, copies: seq<Record>)
      requires Valid() && Drawn(db.files, items) && Drawn(db.files, victims) && target == FindByPath(db.files, TrimSlash(dst))
      modifies this
      ensures Valid()
      ensures r.Done? ==>
        && Sound(before) && StillRead(before.files, victims, items, dst, target)
        && Replicates(items, src, dst, now, copies) && FilesCopied(old(db).chunks, items, db.chunks, copies)
        && FreshIds(before.index, copies) && exists b1 :: Erased(before, victims, b1) && db == AddAll(b1, copies, |copies|)
      ensures alone ==> OnlyNew(old(db), before, old(generated)) && (!r.Done? ==> OnlyNew(old(db), db, old(generated)))
      ensures reliable && alone && r.Failed? ==> db == old(db)
      ensures reliable && alone && Intact(old(db).files, old(lost)) ==> r.Done?
    {
      hide Safe, Evolves, Step, Erased, SameData, Whole, FilesCopied, Replicates, FreshIds, OwnCopies, AddAll, Generated, Absent, OnlyAmong;
      ghost var view := db;
      var blobs;
      ghost var own;
      r, copies, blobs, own := CopyItems(items, src, dst, now);
      before := db;
      if r.Crashed? { return; }
      if r.Done? {
        ghost var d, q := db, published;
        Interfere(own);
        CopiesStay(view.chunks, items, d, q, db, published, own, copies);
        before := db;
        r, copies := CommitCopy(items, victims, copies, src, dst, now, target, view.chunks, own);
        if r.Done? { return; }
      }
      ghost var left := db;
      if r.Failed? {
        DropAll(blobs, own, old(generated));
        if alone { OnlyNewTwice(old(db), left, db, old(generated)); }
        if alone && reliable { AllCleanedUp(old(db), left, db, blobs); }
      }
    }

    /** The loop of Copy: every file's data under an internal ID of its own. The public IDs are filled in when
        the transaction commits. */
    method CopyItems(items: seq<Record>, src: string, dst: string, now: int)
      returns (r: Outcome, copies: seq<Record>, blobs: seq<BlobId>, ghost own: set<BlobId>)
      requires Valid() && Drawn(db.files, items)
      modifies this
      ensures Valid() && Holds(own) && old(generated) <= generated && old(lost) <= lost
      ensures forall b :: b in blobs ==> b in own
      ensures r.Done? ==> Replicates(items, src, dst, now, copies) && OwnCopies(old(db).chunks, items, db.chunks, copies, own)
      ensures forall b :: b in blobs ==> b !in old(generated)
      ensures alone ==> OnlyNew(old(db), db, old(generated)) && published == old(published) && lost == old(lost)
      ensures alone ==> OnlyAmong(old(db), db, blobs)
      ensures forall b :: b in blobs ==> Absent(old(db).chunks, b)
      ensures reliable && alone && Intact(old(db).files, old(lost)) ==> r.Done?
    {
      hide Evolves, Step, Safe, SameData, Complete, BaseName, CopyRecord, Generated, Absent, OnlyAmong;
      NothingAmong(db);
      ghost var view, viewPublished, viewLost := db, published, lost;
      copies, blobs, own, r := [], [], {}, Done;
      EvolvesSame(db, published, {});
      for n := 0 to |items|
        invariant r.Done? && Valid() && Holds(own) && old(generated) <= generated && old(lost) <= lost
        invariant Evolves(view, viewPublished, db, published, {})
        invariant forall b :: b in blobs ==> b in own && b !in old(generated)
        invariant alone ==> OnlyNew(view, db, old(generated)) && published == viewPublished && lost == viewLost
        invariant alone ==> OnlyAmong(view, db, blobs)
        invariant forall b :: b in blobs ==> Absent(view.chunks, b)
        invariant |copies| == n && Replicates(items[..n], src, dst, now, copies)
        invariant OwnCopies(view.chunks, items[..n], db.chunks, copies, own)
      {
        var blob := FreshBlob(own);
        ghost var held := own;
        own := own + {blob};
        assert items[..n + 1] == items[..n] + [items[n]];
        if !items[n].meta.isDir {
          NotYetThere(view.chunks, old(generated), blob);
          ghost var made := blobs;
          blobs := blobs + [blob];
          ghost var d, q := db, published;
          r := CopyBlob(items[n], blob, view, viewPublished, viewLost, own, old(generated));
          if alone {
            DropIsNew(view, d, db, blob, old(generated));
            OneMoreAmong(view, d, db, made, blob);
          }
          assert own - {blob} == held;
          CopiesStay(view.chunks, items[..n], d, q, db, published, held, copies);
          EvolvesForFewer(d, q, db, published, held, {});
          EvolvesTransitive(view, viewPublished, d, q, db, published, {});
          if !r.Done? { return; }
        }
        NextCopy(view.chunks, items, n, db.chunks, copies, held, src, dst, now, blob);
        copies := copies + [CopyRecord(items[n], src, dst, now, NIL, blob)];
      }
      assert items[..|items|] == items;
    }

    /** One file: read the version the view refers to, and write it again. */
    method CopyBlob(item: Record, blob: BlobId, ghost view: Db, ghost viewPublished: set<BlobId>, ghost viewLost: set<BlobId>,
        ghost own: set<BlobId>, ghost known: set<BlobId>)
      returns (r: Outcome)
      requires viewPublished <= known && (alone ==> OnlyNew(view, db, known))
      requires Valid() && Holds(own) && blob in own && Absent(db.chunks, blob)
      requires Safe(view, viewPublished, viewLost) && Evolves(view, viewPublished, db, published, {})
      requires item.meta.path in view.files && view.files[item.meta.path] == item && !item.meta.isDir
      modifies this
      ensures Valid() && Holds(own) && old(generated) <= generated && old(lost) <= lost
      ensures Evolves(old(db), old(published), db, published, own - {blob})
      ensures r.Done? ==> Transcribed(view.chunks, item, db.chunks, blob)
      ensures alone ==> OnlyBlob(old(db), db, blob) && published == old(published) && lost == old(lost)
      ensures reliable && alone && item.blob !in viewLost ==> r.Done?
    {
      hide Evolves, Step, Safe, Generated, Absent, Findable;
      ghost var content := SafeVersion(view, viewPublished, viewLost, item.meta.path);
      VersionStays(view, viewPublished, db, published, {}, item.blob, content);
      EvolvesPublished(view, viewPublished, db, published, {});
      if item.blob !in viewLost {
        if alone { KnownStays(view, db, known, item.blob, content); }
      } else {
        GoneStays(view, viewPublished, db, published, {}, item.blob);
      }
      var reader := new BlobReader(this, item.blob, item.meta.size, content);
      var ok, bytes := reader.ReadAll(own);
      EvolvesForFewer(old(db), old(published), db, published, own, own - {blob});
      StaysAbsent(old(db), old(published), db, published, own, blob);
      if !ok { return Failed(IO); }
      ghost var d, q := db, published;
      var size;
      r, size := WriteChunks(blob, bytes, own);
      EvolvesTransitive(old(db), old(published), d, q, db, published, own - {blob});
      assert r.Done? ==> HasData(view.chunks, item, db.chunks, blob, content);
    }

    /** The transaction of Copy. */
    method CommitCopy(items: seq<Record>, victims: seq<Record>, drafts: seq<Record>, src: string, dst: string, now: int,
        target: Option<Record>, ghost view: Chunks, ghost own: set<BlobId>)
      returns (r: Outcome, copies: seq<Record>)
      requires Valid() && Holds(own) && Replicates(items, src, dst, now, drafts) && OwnCopies(view, items, db.chunks, drafts, own)
      requires forall i, j :: 0 <= i < j < |victims| ==> victims[i].meta.path != victims[j].meta.path
      modifies this`db, this`published
      ensures Valid() && Step(old(db), old(published), db, published, own)
      ensures !r.Done? ==> db == old(db) && published == old(published)
      ensures reliable && StillRead(old(db).files, victims, items, dst, target) ==> r.Done?
      ensures r.Done? ==>
        && StillRead(old(db).files, victims, items, dst, target)
        && Replicates(items, src, dst, now, copies) && FilesCopied(view, items, db.chunks, copies)
        && FreshIds(old(db).index, copies) && exists b1 :: Erased(old(db), victims, b1) && db == AddAll(b1, copies, |copies|)
    {
      hide Step, Safe, SameData, Complete, BaseName, Generated, Erased, CopyRecord, Whole;
      copies := drafts;
      ShrinksIsStep(db, db, published, own);
      r := Fate();
      if !r.Done? { return; }
      if !StillRead(db.files, victims, items, dst, target) { return Failed(IO), copies; }
      var b1 := DeleteItems(db, victims);
      EraseSafe(db, published, lost, victims, b1);
      EraseFindable(db, victims, b1);
      ShrinksIsStep(db, b1, published, own);
      OwnCopiesErased(view, items, db, published, b1, copies, own);
      FewerChunks(db, b1, published, generated);
      copies := AssignIds(db.index, b1, items, drafts, src, dst, now, view, own);
      FreshWhenErased(db, victims, b1, copies);
      var t := b1;
      for n := 0 to |copies|
        invariant t == AddAll(b1, copies, n)
      {
        t := AddRecord(t, copies[n]);
      }
      AddAllSafe(b1, published, lost, copies, |copies|, own, view, items);
      AddAllFindable(b1, copies, |copies|);
      assert own - published == own;
      StepTransitive(db, published, b1, published, t, PublishedBy(published, copies, |copies|), own);
      db := t;
      published := PublishedBy(published, copies, |copies|);
      PublishedBound(old(published), copies, |copies|, own);
    }

    /** Fresh public IDs for the copies. */
    method AssignIds(index: map<Id, string>, ghost b1: Db, items: seq<Record>, drafts: seq<Record>, src: string, dst: string, now: int,
        ghost view: Chunks, ghost own: set<BlobId>)
      returns (copies: seq<Record>)
      requires Replicates(items, src, dst, now, drafts) && OwnCopies(view, items, b1.chunks, drafts, own)
      ensures Replicates(items, src, dst, now, copies) && OwnCopies(view, items, b1.chunks, copies, own)
      ensures FreshIds(index, copies)
    {
      hide SameData, BaseName;
      copies := [];
      var taken := index.Keys;
      for n := 0 to |drafts|
        invariant |copies| == n && FreshIds(index, copies) && taken >= index.Keys
        invariant forall i :: 0 <= i < n ==> copies[i].meta.id in taken
        invariant forall i :: 0 <= i < n ==> copies[i] == CopyRecord(items[i], src, dst, now, copies[i].meta.id, drafts[i].blob)
      {
        ghost var bound := Bound(taken + {NIL});
        assert bound !in taken && bound != NIL;
        var id: Id :| id != NIL && id !in taken;
        taken := taken + {id};
        copies := copies + [CopyRecord(items[n], src, dst, now, id, drafts[n].blob)];
      }
      SameBlobsSameData(view, items, b1.chunks, drafts, copies, src, dst, now, own);
    }

    /** The clean-up of a failed Copy. */
    method DropAll(blobs: seq<BlobId>, ghost own: set<BlobId>, ghost known: set<BlobId>)
      requires Valid() && Holds(own) && forall b :: b in blobs ==> b in own && b !in known
      modifies this`db
      ensures Valid() && OnlyNew(old(db), db, known) && OnlyAmong(old(db), db, blobs)
      ensures reliable ==> forall b :: b in blobs ==> Absent(db.chunks, b)
    {
      for n := 0 to |blobs|
        invariant Valid() && Holds(own) && OnlyNew(old(db), db, known) && OnlyAmong(old(db), db, blobs)
        invariant reliable ==> forall k :: 0 <= k < n ==> Absent(db.chunks, blobs[k])
      {
        ghost var d := db;
        var r := DropChunks(blobs[n], own);
        DropIsNew(old(db), d, db, blobs[n], known);
        AmongStays(old(db), d, db, blobs, blobs[n]);
        if reliable {
          forall k | 0 <= k < n ensures Absent(db.chunks, blobs[k]) { StillGone(d, db, blobs[n], blobs[k]); }
        }
      }
    }
  }

  lemma OnlyBlobTwice(a: Db, b: Db, c: Db, blob: BlobId)
    requires OnlyBlob(a, b, blob) && OnlyBlob(b, c, blob)
    ensures OnlyBlob(a, c, blob)
  {
    forall key: ChunkKey | key.blob != blob ensures SameChunk(a.chunks, c.chunks, key) {
      assert SameChunk(a.chunks, b.chunks, key) && SameChunk(b.chunks, c.chunks, key);
    }
  }

  /** Once a blob's chunks have gone again, the store is what it was. */
  lemma CleanedUp(a: Db, b: Db, c: Db, blob: BlobId)
    requires OnlyBlob(a, b, blob) && OnlyBlob(b, c, blob) && Absent(a.chunks, blob)
    ensures Absent(c.chunks, blob) ==> a == c
  {
    OnlyBlobTwice(a, b, c, blob);
    if Absent(c.chunks, blob) {
      forall key: ChunkKey ensures SameChunk(a.chunks, c.chunks, key) {
        if key.blob == blob { assert !ChunkThere(a.chunks, blob, key.seqNo) && !ChunkThere(c.chunks, blob, key.seqNo); }
      }
      SameChunksSame(a.chunks, c.chunks);
    }
  }

  lemma NothingAmong(a: Db)
    ensures OnlyAmong(a, a, [])
  {
  }

  lemma OneMoreAmong(a: Db, b: Db, c: Db, blobs: seq<BlobId>, blob: BlobId)
    requires OnlyAmong(a, b, blobs) && OnlyBlob(b, c, blob)
    ensures OnlyAmong(a, c, blobs + [blob])
  {
    forall key: ChunkKey | key.blob !in blobs + [blob] ensures SameChunk(a.chunks, c.chunks, key) {
      assert (blobs + [blob])[|blobs|] == blob;
      assert SameChunk(a.chunks, b.chunks, key) && SameChunk(b.chunks, c.chunks, key);
    }
  }

  lemma AmongStays(a: Db, b: Db, c: Db, blobs: seq<BlobId>, blob: BlobId)
    requires OnlyAmong(a, b, blobs) && OnlyBlob(b, c, blob) && blob in blobs
    ensures OnlyAmong(a, c, blobs)
  {
    forall key: ChunkKey | key.blob !in blobs ensures SameChunk(a.chunks, c.chunks, key) {
      assert SameChunk(a.chunks, b.chunks, key) && SameChunk(b.chunks, c.chunks, key);
    }
  }

  lemma NotYetThere(chunks: Chunks, generated: set<BlobId>, blob: BlobId)
    requires Generated(chunks, generated) && blob !in generated
    ensures Absent(chunks, blob)
  {
  }

  lemma StillGone(a: Db, b: Db, blob: BlobId, x: BlobId)
    requires OnlyBlob(a, b, blob) && Absent(a.chunks, x) && Absent(b.chunks, blob)
    ensures Absent(b.chunks, x)
  {
    forall i: nat ensures !ChunkThere(b.chunks, x, i) {
      if x != blob { assert SameChunk(a.chunks, b.chunks, ChunkKey(x, i)) && !ChunkThere(a.chunks, x, i); }
    }
  }

  lemma AllCleanedUp(a: Db, b: Db, c: Db, blobs: seq<BlobId>)
    requires OnlyAmong(a, b, blobs) && OnlyAmong(b, c, blobs)
    requires forall x :: x in blobs ==> Absent(a.chunks, x) && Absent(c.chunks, x)
    ensures a == c
  {
    forall key: ChunkKey ensures SameChunk(a.chunks, c.chunks, key) {
      if key.blob in blobs {
        assert !ChunkThere(a.chunks, key.blob, key.seqNo) && !ChunkThere(c.chunks, key.blob, key.seqNo);
      } else {
        assert SameChunk(a.chunks, b.chunks, key) && SameChunk(b.chunks, c.chunks, key);
      }
    }
    SameChunksSame(a.chunks, c.chunks);
  }

  lemma SameChunksSame(a: Chunks, b: Chunks)
    requires forall key: ChunkKey {:trigger SameChunk(a, b, key)} :: SameChunk(a, b, key)
    ensures a == b
  {
    forall key: ChunkKey ensures (key in a <==> key in b) && (key in a ==> a[key] == b[key]) {
      assert SameChunk(a, b, key);
    }
    assert a.Keys == b.Keys;
  }

  lemma OnlyBlobIsNew(a: Db, b: Db, blob: BlobId, known: set<BlobId>)
    requires OnlyBlob(a, b, blob) && blob !in known
    ensures OnlyNew(a, b, known)
  {
  }

  lemma DropIsNew(a: Db, b: Db, c: Db, blob: BlobId, known: set<BlobId>)
    requires OnlyNew(a, b, known) && OnlyBlob(b, c, blob) && blob !in known
    ensures OnlyNew(a, c, known)
  {
    OnlyBlobIsNew(b, c, blob, known);
    OnlyNewTwice(a, b, c, known);
  }

  lemma OnlyNewTwice(a: Db, b: Db, c: Db, known: set<BlobId>)
    requires OnlyNew(a, b, known) && OnlyNew(b, c, known)
    ensures OnlyNew(a, c, known)
  {
    forall key: ChunkKey | key.blob in known ensures SameChunk(a.chunks, c.chunks, key) {
      assert SameChunk(a.chunks, b.chunks, key) && SameChunk(b.chunks, c.chunks, key);
    }
  }

  /** A known version is still complete if only new blobs have been written. */
  lemma KnownStays(a: Db, b: Db, known: set<BlobId>, x: BlobId, content: seq<byte>)
    requires OnlyNew(a, b, known) && x in known && Complete(a.chunks, x, content)
    ensures Complete(b.chunks, x, content)
  {
    CompleteUnlessTouched(a.chunks, b.chunks, x, content);
  }

  lemma WritingStays(a: Db, pa: set<BlobId>, b: Db, pb: set<BlobId>, mine: set<BlobId>, pending: Chunks,
      blob: BlobId, content: seq<byte>, n: nat)
    requires Evolves(a, pa, b, pb, mine) && blob in mine && Writing(a.chunks, pending, blob, content, n)
    ensures Writing(b.chunks, pending, blob, content, n)
  {
    MineStays(a, pa, b, pb, mine, blob, content);
    forall i: nat | i < n ensures ChunkThere(b.chunks, blob, i) || ChunkThere(pending, blob, i) {
      assert ChunkThere(a.chunks, blob, i) || ChunkThere(pending, blob, i);
    }
  }

  /** A step that only touches one blob of mine leaves my other blobs alone. */
  lemma StepOfMine(a: Db, pa: set<BlobId>, b: Db, pb: set<BlobId>, own: set<BlobId>, blob: BlobId)
    requires Step(a, pa, b, pb, own) && pb == pa
    requires forall key: ChunkKey {:trigger SameChunk(a.chunks, b.chunks, key)} :: key.blob in own && key.blob != blob ==> SameChunk(a.chunks, b.chunks, key)
    ensures Evolves(a, pa, b, pb, own - {blob})
  {
  }

  // ----- What Copy needs -----

  /** The copies made so far are complete, each in a blob of its own. */
  ghost predicate OwnCopies(view: Chunks, items: seq<Record>, chunks: Chunks, copies: seq<Record>, own: set<BlobId>) {
    && |copies| == |items|
    && (forall i :: 0 <= i < |items| ==> copies[i].meta.isDir == items[i].meta.isDir && copies[i].meta.size == items[i].meta.size)
    && (forall i :: 0 <= i < |items| && !items[i].meta.isDir ==>
          copies[i].blob in own && Representable(items[i].meta.size) && SameData(view, items[i], chunks, copies[i]))
    && (forall i, j :: 0 <= i < j < |items| && !items[i].meta.isDir && !items[j].meta.isDir ==> copies[i].blob != copies[j].blob)
  }

  lemma CopiesStay(view: Chunks, items: seq<Record>, a: Db, pa: set<BlobId>, b: Db, pb: set<BlobId>,
      own: set<BlobId>, copies: seq<Record>)
    requires OwnCopies(view, items, a.chunks, copies, own) && Evolves(a, pa, b, pb, own)
    ensures OwnCopies(view, items, b.chunks, copies, own)
  {
    forall i | 0 <= i < |items| && !items[i].meta.isDir ensures SameData(view, items[i], b.chunks, copies[i]) {
      forall n: nat ensures SameChunk(a.chunks, b.chunks, ChunkKey(copies[i].blob, n)) { }
      SameDataStays(view, items[i], a.chunks, b.chunks, copies[i]);
    }
  }

  lemma OwnCopiesErased(view: Chunks, items: seq<Record>, t: Db, published: set<BlobId>, b1: Db,
      copies: seq<Record>, own: set<BlobId>)
    requires OwnCopies(view, items, t.chunks, copies, own) && Shrinks(t, b1, published) && own !! published
    ensures OwnCopies(view, items, b1.chunks, copies, own)
  {
    forall i | 0 <= i < |items| && !items[i].meta.isDir ensures SameData(view, items[i], b1.chunks, copies[i]) {
      forall n: nat ensures SameChunk(t.chunks, b1.chunks, ChunkKey(copies[i].blob, n)) { }
      SameDataStays(view, items[i], t.chunks, b1.chunks, copies[i]);
    }
  }

  lemma NextCopy(view: Chunks, items: seq<Record>, n: nat, chunks: Chunks, copies: seq<Record>, own: set<BlobId>,
      src: string, dst: string, now: int, blob: BlobId)
    requires n < |items| && OwnCopies(view, items[..n], chunks, copies, own) && Replicates(items[..n], src, dst, now, copies)
    requires blob !in own
    requires !items[n].meta.isDir ==> Transcribed(view, items[n], chunks, blob)
    ensures
      var next := copies + [CopyRecord(items[n], src, dst, now, NIL, blob)];
      OwnCopies(view, items[..n + 1], chunks, next, own + {blob}) && Replicates(items[..n + 1], src, dst, now, next)
  {
    hide BaseName, Complete;
    assert items[..n + 1] == items[..n] + [items[n]];
  }

  lemma SameBlobsSameData(view: Chunks, items: seq<Record>, chunks: Chunks, drafts: seq<Record>, copies: seq<Record>,
      src: string, dst: string, now: int, own: set<BlobId>)
    requires OwnCopies(view, items, chunks, drafts, own) && |copies| == |items|
    requires forall i :: 0 <= i < |copies| ==> copies[i] == CopyRecord(items[i], src, dst, now, copies[i].meta.id, drafts[i].blob)
    ensures OwnCopies(view, items, chunks, copies, own)
  {
    hide BaseName, Complete;
    forall i | 0 <= i < |items| && !items[i].meta.isDir ensures SameData(view, items[i], chunks, copies[i]) {
      var content :| |content| == items[i].meta.size == drafts[i].meta.size &&
        Complete(view, items[i].blob, content) && Complete(chunks, drafts[i].blob, content);
    }
  }

  function PublishedBy(published: set<BlobId>, copies: seq<Record>, n: nat): set<BlobId>
    requires n <= |copies|
  {
    if n == 0 then published
    else if copies[n - 1].meta.isDir then PublishedBy(published, copies, n - 1)
    else PublishedBy(published, copies, n - 1) + {copies[n - 1].blob}
  }

  lemma {:induction false} PublishedBound(published: set<BlobId>, copies: seq<Record>, n: nat, own: set<BlobId>)
    requires n <= |copies| && forall i :: 0 <= i < n && !copies[i].meta.isDir ==> copies[i].blob in own
    ensures published <= PublishedBy(published, copies, n) <= published + own
    ensures forall b :: b in PublishedBy(published, copies, n) && b !in published ==>
      exists i :: 0 <= i < n && !copies[i].meta.isDir && copies[i].blob == b
    decreases n
  {
    if n > 0 {
      PublishedBound(published, copies, n - 1, own);
      assert !copies[n - 1].meta.isDir ==> copies[n - 1].blob in own;
    }
  }

  lemma StepTransitive(a: Db, pa: set<BlobId>, b: Db, pb: set<BlobId>, c: Db, pc: set<BlobId>, own: set<BlobId>)
    requires Step(a, pa, b, pb, own) && Step(b, pb, c, pc, own - pb)
    ensures Step(a, pa, c, pc, own)
  {
    forall key: ChunkKey
      ensures key.blob !in own && key.blob !in pa ==> SameChunk(a.chunks, c.chunks, key)
      ensures key.blob in pa ==> OnlyVanished(a.chunks, c.chunks, key)
    {
      if key.blob !in own && key.blob !in pa { assert SameChunk(a.chunks, b.chunks, key) && SameChunk(b.chunks, c.chunks, key); }
      if key.blob in pa { assert OnlyVanished(a.chunks, b.chunks, key) && OnlyVanished(b.chunks, c.chunks, key); }
    }
    forall x | x in pa && References(c.files, x) ensures References(a.files, x) {
      assert References(b.files, x);
    }
  }

  lemma {:induction false} AddAllSafe(t: Db, published: set<BlobId>, lost: set<BlobId>, copies: seq<Record>, n: nat, own: set<BlobId>,
      view: Chunks, items: seq<Record>)
    requires Safe(t, published, lost) && own !! published && n <= |copies| && OwnCopies(view, items, t.chunks, copies, own)
    ensures
      var r, p := AddAll(t, copies, n), PublishedBy(published, copies, n);
      Safe(r, p, lost) && Step(t, published, r, p, own) && r.chunks == t.chunks
    decreases n
  {
    hide SameData, Complete, Safe, Step;
    if n == 0 {
      ChunksStep(t, published, lost, t.chunks, own, {});
      assert t.(chunks := t.chunks) == t;
    } else {
      var j: nat := n - 1;
      AddAllSafe(t, published, lost, copies, j, own, view, items);
      var r, p := AddAll(t, copies, j), PublishedBy(published, copies, j);
      PublishedBound(published, copies, j, own);
      if !copies[j].meta.isDir {
        SameDataIsWhole(view, items[j], t.chunks, copies[j]);
      }
      AddSafe(r, p, lost, copies[j], own - p);
      StepTransitive(t, published, r, p, AddAll(t, copies, n), PublishedBy(published, copies, n), own);
    }
  }

  lemma SafeKept(t: Db, published: set<BlobId>, lost: set<BlobId>, k: string)
    requires Safe(t, published, lost)
    ensures Kept(t, published, lost, k)
  {
  }

  lemma EvolvesPublished(a: Db, pa: set<BlobId>, b: Db, pb: set<BlobId>, mine: set<BlobId>)
    requires Evolves(a, pa, b, pb, mine)
    ensures pa <= pb
  {
  }

  lemma StaysAbsent(a: Db, pa: set<BlobId>, b: Db, pb: set<BlobId>, mine: set<BlobId>, blob: BlobId)
    requires Evolves(a, pa, b, pb, mine) && blob in mine && Absent(a.chunks, blob)
    ensures Absent(b.chunks, blob)
  {
    MineStays(a, pa, b, pb, mine, blob, []);
    forall i: nat ensures !ChunkThere(b.chunks, blob, i) {
      assert !ChunkThere(a.chunks, blob, i);
    }
  }

  lemma GoneStays(a: Db, pa: set<BlobId>, b: Db, pb: set<BlobId>, mine: set<BlobId>, blob: BlobId)
    requires Evolves(a, pa, b, pb, mine) && blob in pa && Absent(a.chunks, blob)
    ensures Absent(b.chunks, blob)
  {
    forall i: nat ensures !ChunkThere(b.chunks, blob, i) {
      assert !ChunkThere(a.chunks, blob, i) && OnlyVanished(a.chunks, b.chunks, ChunkKey(blob, i));
    }
  }

  lemma ClearedDrawn(t: Db, target: Option<Record>, victims: seq<Record>, r: Db)
    requires Cleared(t, target, victims, r)
    ensures Drawn(t.files, victims)
  {
  }

  lemma CopyWritesHolds(view: Db, before: Db, now: int, c: Copying, r: Db)
    requires StillRead(before.files, c.victims, c.items, c.dst, FindByPath(view.files, TrimSlash(c.dst)))
    requires Replicates(c.items, c.src.meta.path, c.dst, now, c.copies) && FilesCopied(view.chunks, c.items, r.chunks, c.copies)
    requires FreshIds(before.index, c.copies)
    requires exists b1 :: Erased(before, c.victims, b1) && r == AddAll(b1, c.copies, |c.copies|)
    ensures CopyWrites(view, before, now, c, r)
  {
  }

  function Commented(t: Db, path: string, comments: string): Db {
    if path !in t.files then t
    else t.(files := t.files[path := Record(t.files[path].meta.(comments := comments), t.files[path].blob)])
  }

  /** What Delete takes away. */
  ghost predicate Deletes(files: Files, root: Record, items: seq<Record>) {
    if root.meta.isDir then Under(files, WithSlash(root.meta.path), items) else items == [root]
  }

  function FileOf(t: Db, path: string): Option<Record> {
    if path in t.files then Some(t.files[path]) else None
  }

  lemma SafeKeysMatch(t: Db, published: set<BlobId>, lost: set<BlobId>)
    requires Safe(t, published, lost)
    ensures KeysMatch(t.files)
  {
    forall k | k in t.files ensures t.files[k].meta.path == k {
      assert Kept(t, published, lost, k);
    }
  }

  lemma FewerChunks(a: Db, b: Db, published: set<BlobId>, generated: set<BlobId>)
    requires Generated(a.chunks, generated) && forall key: ChunkKey {:trigger OnlyVanished(a.chunks, b.chunks, key)} :: OnlyVanished(a.chunks, b.chunks, key)
    ensures Generated(b.chunks, generated)
  {
    forall key | key in b.chunks ensures key.blob in generated {
      assert OnlyVanished(a.chunks, b.chunks, key);
    }
  }

  /** The blob a file gave up is not used again. */
  lemma StillUnused(a: Db, pa: set<BlobId>, b: Db, pb: set<BlobId>, mine: set<BlobId>, x: BlobId)
    requires Evolves(a, pa, b, pb, mine) && x in pa && !References(a.files, x)
    ensures x in pb && !References(b.files, x)
  {
  }

  lemma SwapSafe(t: Db, published: set<BlobId>, lost: set<BlobId>, path: string, r: Record, own: set<BlobId>)
    requires Safe(t, published, lost) && own !! published && path in t.files && !t.files[path].meta.isDir
    requires !r.meta.isDir && r.meta.path == path && r.blob in own && Whole(t.chunks, r) && Representable(r.meta.size)
    ensures
      var t', published' := t.(files := t.files[path := r]), published + {r.blob};
      Safe(t', published', lost) && Step(t, published, t', published', own) &&
      t.files[path].blob in published && !References(t'.files, t.files[path].blob)
  {
    var t', published' := t.(files := t.files[path := r]), published + {r.blob};
    assert Kept(t, published, lost, path);
    forall k ensures Kept(t', published', lost, k) {
      assert Kept(t, published, lost, k);
    }
    forall j, k ensures Separate(t'.files, j, k) {
      assert Separate(t.files, j, k) && Kept(t, published, lost, j) && Kept(t, published, lost, k);
    }
    forall x | x in published && References(t'.files, x) ensures References(t.files, x) {
      var k :| k in t'.files && !t'.files[k].meta.isDir && t'.files[k].blob == x;
      assert k in t.files && t.files[k].blob == x;
    }
    forall k | k in t'.files && !t'.files[k].meta.isDir ensures t'.files[k].blob != t.files[path].blob {
      assert Separate(t.files, k, path);
    }
  }

  lemma CommentSafe(t: Db, published: set<BlobId>, lost: set<BlobId>, path: string, r: Record)
    requires Safe(t, published, lost) && path in t.files
    requires r.blob == t.files[path].blob && r.meta.path == path && r.meta.isDir == t.files[path].meta.isDir && r.meta.size == t.files[path].meta.size
    ensures Safe(t.(files := t.files[path := r]), published, lost)
  {
    var t' := t.(files := t.files[path := r]);
    SameSizeSameBlob(t.chunks, t.files[path], r);
    forall k ensures Kept(t', published, lost, k) {
      assert Kept(t, published, lost, k);
    }
    forall j, k ensures Separate(t'.files, j, k) {
      assert Separate(t.files, j, k);
    }
  }

  lemma CommentStep(t: Db, published: set<BlobId>, path: string, comments: string)
    ensures Step(t, published, Commented(t, path, comments), published, {})
  {
    var r := Commented(t, path, comments);
    forall x | References(r.files, x) ensures References(t.files, x) {
      var k :| k in r.files && !r.files[k].meta.isDir && r.files[k].blob == x;
      assert k in t.files && t.files[k].blob == x;
    }
  }

  // ----- Reading -----

  datatype ReadError = EOF | KeyNotFound | OutOfRange | InvalidChunk | InvalidWhence | NegativePosition

  datatype Whence = SeekStart | SeekCurrent | SeekEnd | OtherWhence

  lemma ChunkOfOffset(content: seq<byte>, offset: nat)
    requires offset < |content|
    ensures
      var i, o := offset / CHUNK_SIZE, offset % CHUNK_SIZE;
      i < ChunkCount(|content|) && i * CHUNK_SIZE + o == offset && o < |ChunkAt(content, i)| &&
      ChunkAt(content, i)[o..] == content[offset..Min((i + 1) * CHUNK_SIZE, |content|)]
  {
    var i, o := offset / CHUNK_SIZE, offset % CHUNK_SIZE;
    assert i * CHUNK_SIZE + o == offset;
    ChunkStart(|content|, i);
    var end := Min((i + 1) * CHUNK_SIZE, |content|);
    assert content[i * CHUNK_SIZE..end][o..] == content[offset..end];
  }

  /** The offset lies at `from` within chunk `index`. */
  ghost predicate Locates(content: seq<byte>, offset: nat, index: nat, from: nat) {
    && index == offset / CHUNK_SIZE && from == offset % CHUNK_SIZE
    && offset < |content| && index < ChunkCount(|content|) && from < |ChunkAt(content, index)|
  }

  /** What is copied from a chunk is what stands at the offset. */
  lemma ChunkSlice(content: seq<byte>, offset: nat, index: nat, from: nat, chunk: seq<byte>, k: nat)
    requires Locates(content, offset, index, from) && chunk == ChunkAt(content, index) && from + k <= |chunk|
    ensures offset + k <= |content| && chunk[from..from + k] == content[offset..offset + k]
  {
    ChunkOfOffset(content, offset);
    var rest := chunk[from..];
    assert rest[..k] == chunk[from..from + k];
    var end := Min((index + 1) * CHUNK_SIZE, |content|);
    assert content[offset..end][..k] == content[offset..offset + k];
  }

  lemma Extend(p: seq<byte>, n: nat, k: nat, before: seq<byte>, content: seq<byte>, start: nat, end: nat)
    requires n + k <= |p| && p[..n] == before && start + n + k == end <= |content|
    requires before == content[start..end - k] && p[n..n + k] == content[end - k..end]
    ensures p[..n + k] == content[start..end]
  {
    assert p[..n + k] == p[..n] + p[n..n + k];
    assert content[start..end] == content[start..end - k] + content[end - k..end];
  }

  lemma TailStays(was: seq<byte>, before: seq<byte>, after: seq<byte>, n: nat, k: nat)
    requires |was| == |before| == |after| && n + k <= |was|
    requires before[n..] == was[n..] && after[n + k..] == before[n + k..]
    ensures after[n + k..] == was[n + k..]
  {
    assert before[n + k..] == before[n..][k..] && was[n + k..] == was[n..][k..];
  }

  class BlobReader {
    const store: BadgerVFS
    const blob: BlobId
    const size: nat
    var offset: nat
    var cachedChunk: Option<seq<byte>>
    var cachedIndex: nat
    /** The version the reader was opened on. */
    ghost const content: seq<byte>

    /** The cache, if there is one, is the chunk it is taken for; and what is stored of the version is part of
        it, even when some of it has been deleted by now. */
    ghost predicate Valid()
      reads this, store
    {
      && size == |content| && size <= MAX_CHUNKS * CHUNK_SIZE
      && (cachedChunk.Some? ==> cachedIndex < ChunkCount(size) && cachedChunk.value == ChunkAt(content, cachedIndex))
      && store.Valid() && blob in store.published && PartOf(store.db.chunks, blob, content)
    }

    constructor (store: BadgerVFS, blob: BlobId, size: nat, ghost content: seq<byte>)
      requires store.Valid() && blob in store.published && PartOf(store.db.chunks, blob, content)
      requires size == |content| && size <= MAX_CHUNKS * CHUNK_SIZE
      ensures Valid() && offset == 0 && cachedChunk == None
      ensures this.store == store && this.blob == blob && this.size == size && this.content == content
    {
      this.store, this.blob, this.size, this.content := store, blob, size, content;
      offset, cachedChunk, cachedIndex := 0, None, 0;
    }

    /** Read. The bytes are always those of the opened version at the offset; the call is short only at the
        end of the data or when a chunk of the version has been deleted meanwhile. */
    method Read(p: array<byte>, ghost mine: set<BlobId>) returns (n: nat, err: Option<ReadError>)
      requires Valid() && store.Holds(mine)
      modifies this`offset, this`cachedChunk, this`cachedIndex, store, p
      ensures Valid() && store.Holds(mine) && old(store.generated) <= store.generated && old(store.lost) <= store.lost
      ensures Evolves(old(store.db), old(store.published), store.db, store.published, mine)
      ensures store.alone ==> store.db == old(store.db) && store.published == old(store.published) && store.lost == old(store.lost)
      ensures n <= p.Length && offset == old(offset) + n
      ensures p[n..] == old(p[..])[n..]
      ensures n > 0 ==> offset <= size
      ensures offset <= size ==> p[..n] == content[old(offset)..offset]
      ensures err.None? ==> old(offset) < size && n == Min(p.Length, size - old(offset))
      ensures err.Some? ==> err == Some(EOF) || err == Some(KeyNotFound)
      ensures err == Some(EOF) <==> old(offset) >= size
      ensures err == Some(KeyNotFound) ==> !Complete(store.db.chunks, blob, content)
      ensures old(cachedChunk).None? && Absent(old(store.db.chunks), blob) && old(offset) < size && p.Length > 0 ==> err.Some?
    {
      hide Complete, PartOf, Evolves, Safe, Generated, Findable, Absent, ChunkAt, ChunkCount;
      n, err := 0, None;
      EvolvesSame(store.db, store.published, mine);
      if offset >= size { return 0, Some(EOF); }
      ghost var start, was := offset, p[..];
      var toRead := Min(p.Length, size - offset);
      while n < toRead
        invariant Valid() && store.Holds(mine) && old(store.generated) <= store.generated && old(store.lost) <= store.lost
        invariant Evolves(old(store.db), old(store.published), store.db, store.published, mine)
        invariant store.alone ==> store.db == old(store.db) && store.published == old(store.published) && store.lost == old(store.lost)
        invariant err.None? && n <= toRead && offset == start + n <= size
        invariant p[..n] == content[start..offset]
        invariant p[n..] == was[n..]
        invariant n == 0 ==> cachedChunk == old(cachedChunk) && store.db == old(store.db)
        invariant old(cachedChunk).None? && Absent(old(store.db.chunks), blob) ==> n == 0
        decreases toRead - n
      {
        ghost var d, q, before := store.db, store.published, p[..];
        var k;
        k, err := ReadSome(p, n, toRead, mine);
        EvolvesTransitive(old(store.db), old(store.published), d, q, store.db, store.published, mine);
        if err.Some? { return; }
        Extend(p[..], n, k, before[..n], content, start, offset);
        TailStays(was, before, p[..], n, k);
        n := n + k;
      }
    }

    /** One turn of the loop: load the chunk of the offset if it is not cached, and copy from it. */
    method ReadSome(p: array<byte>, n: nat, ghost toRead: nat, ghost mine: set<BlobId>) returns (k: nat,
        err: Option<ReadError>)
      requires Valid() && store.Holds(mine) && offset < size && n < toRead
      requires toRead <= p.Length && toRead - n <= size - offset && (toRead < p.Length ==> toRead - n == size - offset)
      modifies this`offset, this`cachedChunk, this`cachedIndex, store, p
      ensures Valid() && store.Holds(mine) && old(store.generated) <= store.generated && old(store.lost) <= store.lost
      ensures Evolves(old(store.db), old(store.published), store.db, store.published, mine)
      ensures store.alone ==> store.db == old(store.db) && store.published == old(store.published) && store.lost == old(store.lost)
      ensures err.Some? ==> err == Some(KeyNotFound) && k == 0 && offset == old(offset) && p[..] == old(p[..])
      ensures err.Some? ==> !Complete(store.db.chunks, blob, content)
      ensures err.None? ==>
        && 0 < k <= toRead - n && offset == old(offset) + k <= size
        && p[..n] == old(p[..n]) && p[n..n + k] == content[old(offset)..offset] && p[n + k..] == old(p[n + k..])
      ensures old(cachedChunk).None? && Absent(old(store.db.chunks), blob) ==> err.Some?
    {
      hide Complete, PartOf, Evolves, ChunkAt, ChunkCount, Safe, Findable, Absent, Generated, Locates;
      k, err := 0, None;
      EvolvesSame(store.db, store.published, mine);
      var index, from := Locate();
      if index >= MAX_CHUNKS {
        err := Some(OutOfRange);
        return;
      }
      if cachedChunk.None? || cachedIndex != index {
        var found := LoadChunk(index, mine);
        if !found { return 0, Some(KeyNotFound); }
      }
      if from >= |cachedChunk.value| {
        err := Some(InvalidChunk);
        return;
      }
      k := Min(p.Length - n, |cachedChunk.value| - from);
      ChunkSlice(content, offset, index, from, cachedChunk.value, k);
      CopyOut(p, n, from);
      offset := offset + k;
    }

    method Locate() returns (index: nat, from: nat)
      requires Valid() && offset < size
      ensures Locates(content, offset, index, from)
      ensures index < ChunkCount(size) && index < MAX_CHUNKS && from < |ChunkAt(content, index)|
    {
      index, from := offset / CHUNK_SIZE, offset % CHUNK_SIZE;
      ChunkOfOffset(content, offset);
      InRange(index, size);
    }

    /** The look-up of a chunk that is not cached. */
    method LoadChunk(index: nat, ghost mine: set<BlobId>) returns (found: bool)
      requires Valid() && store.Holds(mine) && index < ChunkCount(size)
      modifies this`cachedChunk, this`cachedIndex, store
      ensures Valid() && store.Holds(mine) && old(store.generated) <= store.generated && old(store.lost) <= store.lost
      ensures Evolves(old(store.db), old(store.published), store.db, store.published, mine)
      ensures store.alone ==> store.db == old(store.db) && store.published == old(store.published) && store.lost == old(store.lost)
      ensures found ==> cachedChunk.Some? && cachedIndex == index
      ensures !found ==> !Complete(store.db.chunks, blob, content)
      ensures Absent(old(store.db.chunks), blob) ==> !found
    {
      hide Safe, Findable;
      store.Interfere(mine);
      VersionStays(old(store.db), old(store.published), store.db, store.published, mine, blob, content);
      assert ChunkFits(store.db.chunks, blob, content, index);
      assert !ChunkThere(old(store.db.chunks), blob, index) ==> !ChunkThere(store.db.chunks, blob, index);
      found := ChunkKey(blob, index) in store.db.chunks;
      if found {
        cachedChunk, cachedIndex := Some(store.db.chunks[ChunkKey(blob, index)]), index;
      } else {
        assert !ChunkThere(store.db.chunks, blob, index);
      }
    }

    /** copy(p[n:], cachedChunk[from:]) */
    method CopyOut(p: array<byte>, n: nat, from: nat)
      requires cachedChunk.Some? && from < |cachedChunk.value| && n < p.Length
      modifies p
      ensures var k := Min(p.Length - n, |cachedChunk.value| - from);
        p[..n] == old(p[..n]) && p[n..n + k] == cachedChunk.value[from..from + k] && p[n + k..] == old(p[n + k..])
    {
      var k := Min(p.Length - n, |cachedChunk.value| - from);
      for i := 0 to k
        invariant p[..n] == old(p[..n]) && p[n..n + i] == cachedChunk.value[from..from + i]
        invariant p[n + i..] == old(p[n + i..])
      {
        p[n + i] := cachedChunk.value[from + i];
      }
    }

    /** io.ReadFull, again and again, until the end. */
    method ReadAll(ghost mine: set<BlobId>) returns (ok: bool, bytes: seq<byte>)
      requires Valid() && store.Holds(mine) && offset == 0
      modifies this`offset, this`cachedChunk, this`cachedIndex, store
      ensures Valid() && store.Holds(mine) && old(store.generated) <= store.generated && old(store.lost) <= store.lost
      ensures Evolves(old(store.db), old(store.published), store.db, store.published, mine)
      ensures store.alone ==> store.db == old(store.db) && store.published == old(store.published) && store.lost == old(store.lost)
      ensures ok ==> bytes == content
      ensures !ok ==> !Complete(store.db.chunks, blob, content)
      ensures old(cachedChunk).None? && Absent(old(store.db.chunks), blob) && size > 0 ==> !ok
    {
      hide Complete, PartOf, Absent, Evolves, Safe, Findable, Generated;
      var buffer := new byte[CHUNK_SIZE];
      ok, bytes := true, [];
      EvolvesSame(store.db, store.published, mine);
      while true
        invariant Valid() && store.Holds(mine) && old(store.generated) <= store.generated && old(store.lost) <= store.lost
        invariant Evolves(old(store.db), old(store.published), store.db, store.published, mine)
        invariant store.alone ==> store.db == old(store.db) && store.published == old(store.published) && store.lost == old(store.lost)
        invariant offset <= size && bytes == content[..offset]
        invariant offset == 0 ==> cachedChunk == old(cachedChunk) && store.db == old(store.db)
        invariant old(cachedChunk).None? && Absent(old(store.db.chunks), blob) && size > 0 ==> offset == 0
        decreases size - offset
      {
        ghost var d, q, start := store.db, store.published, offset;
        var n, err := Read(buffer, mine);
        EvolvesTransitive(old(store.db), old(store.published), d, q, store.db, store.published, mine);
        bytes := bytes + buffer[..n];
        assert content[..start] + content[start..offset] == content[..offset];
        if err == Some(EOF) { break; }
        if err.Some? { return false, bytes; }
      }
      assert content[..size] == content;
    }

    method Seek(o: int, whence: Whence) returns (position: int, err: Option<ReadError>)
      requires Valid()
      modifies this`offset
      ensures Valid()
      ensures var target := match whence
          case SeekStart => o
          case SeekCurrent => old(offset) + o
          case SeekEnd => size + o
          case OtherWhence => -1;
        if target < 0 then err.Some? && offset == old(offset)
        else err.None? && position == offset == target
    {
      match whence {
        case SeekStart => position := o;
        case SeekCurrent => position := offset + o;
        case SeekEnd => position := size + o;
        case OtherWhence => return 0, Some(InvalidWhence);
      }
      if position < 0 { return 0, Some(NegativePosition); }
      offset := position;
      err := None;
    }

    method Close()
      requires Valid()
      modifies this`cachedChunk
      ensures Valid() && cachedChunk == None
    {
      cachedChunk := None;
    }
  }

  lemma InRange(index: nat, size: nat)
    requires index < ChunkCount(size) && size <= MAX_CHUNKS * CHUNK_SIZE
    ensures index <= MAX_CHUNKS - 1
  {
  }
}
