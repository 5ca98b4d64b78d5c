/** What a Badger copy loses. It deletes whatever is under the key it replaces before it gathers what is under the
    source; and it puts its copies under keys that it has not looked at, whatever is there. */
module BadgerCopies {
  import opened Paths
  import opened Disk
  import opened Namespace
  import opened IndexFiles
  import opened Blobs
  import opened BadgerState
  import opened BadgerTransactions

  // ----- What should become of every record -----

  /** The record at k is at or under the source. */
  predicate CopiesAlong(files: Files, src: Record, k: string) {
    k in files && InTree(src, k, files[k])
  }

  /** The record at k is there as before, found by its ID, with its data. */
  ghost predicate Stays(before: Db, r: Db, k: string)
    requires k in before.files
  {
    var rec := before.files[k];
    k in r.files && r.files[k] == rec && FindableAt(r, k) && (!rec.meta.isDir ==> SameBlob(before.chunks, r.chunks, rec.blob))
  }

  /** A copy of the record at k is where it should be, found by an ID of its own, with the same data. */
  ghost predicate IsCopied(view: Db, src: Record, dst: string, now: int, r: Db, k: string)
    requires k in view.files
  {
    var key := CopyKey(src.meta.path, dst, k);
    key in r.files && FindableAt(r, key) &&
    var rec := r.files[key];
    rec == CopyRecord(view.files[k], src.meta.path, dst, now, rec.meta.id, rec.blob) &&
    (!rec.meta.isDir ==> SameData(view.chunks, view.files[k], r.chunks, rec))
  }

  /** What should become of the record at k: it stays unless it is replaced, and in any case if it is at or under the
      source; and if it was that when Copy looked, it has been copied. */
  ghost predicate Copes(view: Db, before: Db, src: Record, dst: string, now: int, r: Db, k: string) {
    && (k in before.files && (Replaced(view.files, dst, k) ==> CopiesAlong(view.files, src, k)) ==> Stays(before, r, k))
    && (CopiesAlong(view.files, src, k) ==> IsCopied(view, src, dst, now, r, k))
  }

  ghost predicate CopyLosesNothing(view: Db, before: Db, src: Record, dst: string, now: int, r: Db) {
    forall k {:trigger Copes(view, before, src, dst, now, r, k)} :: Copes(view, before, src, dst, now, r, k)
  }

  // ----- When that fails, from the stores alone -----

  /** Something at or under the source is in the subtree that is replaced. */
  predicate SweptAway(view: Files, src: Record, dst: string, k: string) {
    CopiesAlong(view, src, k) && Replaced(view, dst, k)
  }

  /** The copy of the record at j is put where a record is that is not replaced. */
  predicate Overwrites(view: Files, before: Files, src: Record, dst: string, j: string) {
    CopiesAlong(view, src, j) && CopyKey(src.meta.path, dst, j) in before && !Replaced(view, dst, CopyKey(src.meta.path, dst, j))
  }

  ghost predicate CopyLoses(view: Files, before: Files, src: Record, dst: string) {
    (exists k :: SweptAway(view, src, dst, k)) || (exists j :: Overwrites(view, before, src, dst, j))
  }

  // ----- Adding the copies -----

  ghost predicate IsCopy(copies: seq<Record>, n: nat, k: string, rec: Record)
    requires n <= |copies|
  {
    exists i :: 0 <= i < n && copies[i] == rec && rec.meta.path == k
  }

  /** Under a key there is a copy if one has been put there, and otherwise what was there. */
  lemma {:induction false} AddAllAt(t: Db, copies: seq<Record>, n: nat, k: string)
    requires n <= |copies|
    ensures
      var r := AddAll(t, copies, n);
      r.chunks == t.chunks &&
      if exists i :: 0 <= i < n && copies[i].meta.path == k then k in r.files && IsCopy(copies, n, k, r.files[k])
      else (k in r.files <==> k in t.files) && (k in r.files ==> r.files[k] == t.files[k])
    decreases n
  {
    if n > 0 {
      AddAllAt(t, copies, n - 1, k);
      assert copies[n - 1].meta.path == k ==> IsCopy(copies, n, k, copies[n - 1]);
    }
  }

  // ----- The scene of a copy -----

  /** A copy of what the view had, committed to `before`, via b1, that store without what is replaced. */
  ghost predicate Stage(view: Db, before: Db, published: set<BlobId>, lost: set<BlobId>, now: int, c: Copying, t1: Db, b1: Db,
      r: Db) {
    && KeysMatch(view.files) && c.src.meta.path in view.files && view.files[c.src.meta.path] == c.src
    && Cleared(view, FindByPath(view.files, TrimSlash(c.dst)), c.victims, t1) && GathersFrom(t1.files, c.src, c.items)
    && Safe(before, published, lost) && Findable(before) && CopyWrites(view, before, now, c, r)
    && Erased(before, c.victims, b1) && r == AddAll(b1, c.copies, |c.copies|)
  }

  lemma Replacing(view: Db, before: Db, published: set<BlobId>, lost: set<BlobId>, now: int, c: Copying, t1: Db, b1: Db, r: Db,
      k: string)
    requires Stage(view, before, published, lost, now, c, t1, b1, r)
    ensures k in view.files ==> view.files[k].meta.path == k
    ensures k in t1.files <==> k in view.files && !Replaced(view.files, c.dst, k)
    ensures k in t1.files ==> t1.files[k] == view.files[k]
    ensures k in b1.files <==> k in before.files && !Replaced(view.files, c.dst, k)
    ensures k in b1.files ==> b1.files[k] == before.files[k]
    ensures Includes(c.victims, k) <==> Replaced(view.files, c.dst, k)
  {
    hide BaseName, CopyRecord, SameData, Safe, Findable, GathersFrom, Replicates, FilesCopied, FreshIds, AddAll, InTree;
    assert ErasedAt(view, c.victims, t1, k) && ErasedAt(before, c.victims, b1, k);
    VictimsAre(view, c.dst, c.victims, t1, k);
  }

  lemma VictimsAre(view: Db, dst: string, victims: seq<Record>, t1: Db, k: string)
    requires Cleared(view, FindByPath(view.files, TrimSlash(dst)), victims, t1)
    ensures Includes(victims, k) <==> Replaced(view.files, dst, k)
  {
    if k in view.files { VictimsAreReplaced(view, dst, victims, t1, k); }
  }

  /** The result is found by its IDs. */
  lemma StageFindable(view: Db, before: Db, published: set<BlobId>, lost: set<BlobId>, now: int, c: Copying, t1: Db, b1: Db,
      r: Db, k: string)
    requires Stage(view, before, published, lost, now, c, t1, b1, r)
    ensures FindableAt(r, k)
  {
    hide BaseName, CopyRecord, SameData, Safe, Replicates, FilesCopied, GathersFrom, Replaced;
    StageVictims(view, before, published, lost, now, c, t1, b1, r);
    EraseFindable(before, c.victims, b1);
    FreshWhenErased(before, c.victims, b1, c.copies);
    AddAllFindable(b1, c.copies, |c.copies|);
  }

  lemma StageVictims(view: Db, before: Db, published: set<BlobId>, lost: set<BlobId>, now: int, c: Copying, t1: Db, b1: Db, r: Db)
    requires Stage(view, before, published, lost, now, c, t1, b1, r)
    ensures Drawn(before.files, c.victims)
  {
    hide BaseName, CopyRecord, SameData, Safe, Findable, Replicates, FilesCopied, GathersFrom, Replaced, AddAll, Erased;
  }

  /** What is copied is at or under the source, and was not replaced, the source itself aside. */
  lemma StageItems(view: Db, before: Db, published: set<BlobId>, lost: set<BlobId>, now: int, c: Copying, t1: Db, b1: Db, r: Db,
      i: nat)
    requires Stage(view, before, published, lost, now, c, t1, b1, r) && i < |c.items|
    ensures |c.copies| == |c.items|
    ensures c.copies[i] == CopyRecord(c.items[i], c.src.meta.path, c.dst, now, c.copies[i].meta.id, c.copies[i].blob)
    ensures c.items[i].meta.path in view.files && view.files[c.items[i].meta.path] == c.items[i]
    ensures CopiesAlong(view.files, c.src, c.items[i].meta.path)
    ensures c.copies[i].meta.path == CopyKey(c.src.meta.path, c.dst, c.items[i].meta.path)
    ensures !c.items[i].meta.isDir ==> SameData(view.chunks, c.items[i], r.chunks, c.copies[i])
  {
    hide BaseName, SameData, Safe, Findable, Erased, AddAll, Replaced, CopyKey;
    var k := c.items[i].meta.path;
    Replacing(view, before, published, lost, now, c, t1, b1, r, k);
    assert Includes(c.items, k);
  }

  /** Copies have keys of their own. */
  lemma KeysOfCopies(view: Db, before: Db, published: set<BlobId>, lost: set<BlobId>, now: int, c: Copying, t1: Db, b1: Db, r: Db,
      i: nat, j: nat)
    requires Stage(view, before, published, lost, now, c, t1, b1, r) && i < |c.items| && j < |c.items| && i != j
    ensures |c.copies| == |c.items| && c.copies[i].meta.path != c.copies[j].meta.path
  {
    hide BaseName, SameData, Safe, Findable, Erased, AddAll, Replaced, CopyKey, CopyRecord, CopyWrites, Cleared;
    StageItems(view, before, published, lost, now, c, t1, b1, r, i);
    StageItems(view, before, published, lost, now, c, t1, b1, r, j);
    assert c.items[i].meta.path != c.items[j].meta.path;
    KeysDistinct(c.src.meta.path, c.dst, c.items[i].meta.path, c.items[j].meta.path);
  }

  lemma KeysDistinct(src: string, dst: string, j: string, k: string)
    requires src <= j && src <= k && j != k
    ensures CopyKey(src, dst, j) != CopyKey(src, dst, k)
  {
    assert j == src + j[|src|..] && k == src + k[|src|..];
    assert CopyKey(src, dst, j)[|dst|..] == j[|src|..] && CopyKey(src, dst, k)[|dst|..] == k[|src|..];
  }

  // ----- Nothing lost if nothing is swept away or overwritten -----

  lemma StaysThere(view: Db, before: Db, published: set<BlobId>, lost: set<BlobId>, now: int, c: Copying, t1: Db, b1: Db, r: Db,
      k: string)
    requires Stage(view, before, published, lost, now, c, t1, b1, r) && !CopyLoses(view.files, before.files, c.src, c.dst)
    requires k in before.files && (Replaced(view.files, c.dst, k) ==> CopiesAlong(view.files, c.src, k))
    ensures Stays(before, r, k)
  {
    hide BaseName, SameData, Findable, AddAll, Replaced, CopyKey, CopyRecord, CopyWrites, Cleared, GathersFrom, Complete, CopiesAlong;
    assert !SweptAway(view.files, c.src, c.dst, k);
    Replacing(view, before, published, lost, now, c, t1, b1, r, k);
    StageFindable(view, before, published, lost, now, c, t1, b1, r, k);
    forall i | 0 <= i < |c.copies| ensures c.copies[i].meta.path != k { NotOverwritten(view, before, published, lost, now, c, t1, b1, r, k, i); }
    AddAllAt(b1, c.copies, |c.copies|, k);
    if !before.files[k].meta.isDir {
      StageVictims(view, before, published, lost, now, c, t1, b1, r);
      SurvivorOwnsItsBlob(before, published, lost, c.victims, k);
      forall i: nat ensures SameChunk(before.chunks, b1.chunks, ChunkKey(before.files[k].blob, i)) {
        assert UnchunkedAt(before, c.victims, b1, ChunkKey(before.files[k].blob, i));
      }
    }
  }

  lemma NotOverwritten(view: Db, before: Db, published: set<BlobId>, lost: set<BlobId>, now: int, c: Copying, t1: Db, b1: Db, r: Db,
      k: string, i: nat)
    requires Stage(view, before, published, lost, now, c, t1, b1, r) && !CopyLoses(view.files, before.files, c.src, c.dst)
    requires k in before.files && !Replaced(view.files, c.dst, k) && i < |c.copies|
    ensures c.copies[i].meta.path != k
  {
    hide BaseName, SameData, Safe, Findable, Erased, AddAll, Replaced, CopyKey, CopyRecord, Cleared, GathersFrom, CopiesAlong;
    assert |c.copies| == |c.items|;
    StageItems(view, before, published, lost, now, c, t1, b1, r, i);
    assert !Overwrites(view.files, before.files, c.src, c.dst, c.items[i].meta.path);
  }

  lemma CopiedThere(view: Db, before: Db, published: set<BlobId>, lost: set<BlobId>, now: int, c: Copying, t1: Db, b1: Db, r: Db,
      k: string)
    requires Stage(view, before, published, lost, now, c, t1, b1, r) && !CopyLoses(view.files, before.files, c.src, c.dst)
    requires CopiesAlong(view.files, c.src, k)
    ensures IsCopied(view, c.src, c.dst, now, r, k)
  {
    hide BaseName, SameData, Safe, Findable, Erased, AddAll, Replaced, CopyKey, CopyWrites, Cleared;
    assert !SweptAway(view.files, c.src, c.dst, k);
    Replacing(view, before, published, lost, now, c, t1, b1, r, k);
    assert Includes(c.items, k);
    var i :| 0 <= i < |c.items| && c.items[i].meta.path == k;
    StageItems(view, before, published, lost, now, c, t1, b1, r, i);
    var key := CopyKey(c.src.meta.path, c.dst, k);
    AddAllAt(b1, c.copies, |c.copies|, key);
    forall j | 0 <= j < |c.copies| && c.copies[j].meta.path == key ensures j == i {
      if j != i { KeysOfCopies(view, before, published, lost, now, c, t1, b1, r, i, j); }
    }
    StageFindable(view, before, published, lost, now, c, t1, b1, r, key);
    assert c.copies[i].meta.path == key && r.files[key] == c.copies[i];
  }

  // ----- Something lost otherwise -----

  /** A record of before is not the one under its key if that key has been swept away, or if a copy is put there. */
  lemma OthersId(view: Db, before: Db, published: set<BlobId>, lost: set<BlobId>, now: int, c: Copying, t1: Db, b1: Db, r: Db,
      k: string)
    requires Stage(view, before, published, lost, now, c, t1, b1, r) && k in before.files
    requires Replaced(view.files, c.dst, k) || exists i :: 0 <= i < |c.copies| && c.copies[i].meta.path == k
    ensures !Stays(before, r, k)
  {
    hide BaseName, SameData, Safe, Erased, AddAll, Replaced, CopyKey, CopyRecord, Cleared, GathersFrom, Replicates, FilesCopied;
    Replacing(view, before, published, lost, now, c, t1, b1, r, k);
    AddAllAt(b1, c.copies, |c.copies|, k);
    assert FindableAt(before, k);
  }

  lemma LosesSomething(view: Db, before: Db, published: set<BlobId>, lost: set<BlobId>, now: int, c: Copying, t1: Db, b1: Db, r: Db)
    requires Stage(view, before, published, lost, now, c, t1, b1, r) && CopyLoses(view.files, before.files, c.src, c.dst)
    ensures !CopyLosesNothing(view, before, c.src, c.dst, now, r)
  {
    hide BaseName, SameData, Safe, Findable, Erased, AddAll, Replaced, CopyKey, CopyRecord, Cleared, Stays, IsCopied;
    if k :| SweptAway(view.files, c.src, c.dst, k) {
      SweptWasThere(view, before, published, lost, now, c, t1, b1, r, k);
      OthersId(view, before, published, lost, now, c, t1, b1, r, k);
      assert !Copes(view, before, c.src, c.dst, now, r, k);
    } else {
      var j :| Overwrites(view.files, before.files, c.src, c.dst, j);
      var key := CopyKey(c.src.meta.path, c.dst, j);
      assert !SweptAway(view.files, c.src, c.dst, j);
      Replacing(view, before, published, lost, now, c, t1, b1, r, j);
      assert Includes(c.items, j);
      var i :| 0 <= i < |c.items| && c.items[i].meta.path == j;
      StageItems(view, before, published, lost, now, c, t1, b1, r, i);
      assert c.copies[i].meta.path == key;
      OthersId(view, before, published, lost, now, c, t1, b1, r, key);
      assert !Copes(view, before, c.src, c.dst, now, r, key);
    }
  }

  /** What is replaced has been read, and is still there at the commit. */
  lemma SweptWasThere(view: Db, before: Db, published: set<BlobId>, lost: set<BlobId>, now: int, c: Copying, t1: Db, b1: Db, r: Db,
      k: string)
    requires Stage(view, before, published, lost, now, c, t1, b1, r) && Replaced(view.files, c.dst, k)
    ensures k in before.files
  {
    hide BaseName, SameData, Safe, Findable, Erased, AddAll, Replaced, CopyKey, CopyRecord, GathersFrom, Replicates, FilesCopied;
    Replacing(view, before, published, lost, now, c, t1, b1, r, k);
    var i :| 0 <= i < |c.victims| && c.victims[i].meta.path == k;
  }

  // ----- The result -----

  /** A Badger copy copies every record at or under its source, and leaves every record where it is that it does not
      replace, each with its data, if and only if it replaces nothing at or under its source and puts no copy where a
      record is that it does not replace. The view is what it has read, and `before` the store it commits to. */
  lemma CopyLosesNothingIff(view: Db, before: Db, replace: Option<Id>, now: int, c: Copying, r: Db)
    requires KeysMatch(view.files) && c.src.meta.path in view.files && view.files[c.src.meta.path] == c.src
    requires Sound(before)
    requires CopyGathers(view, replace, c) && CopyWrites(view, before, now, c, r)
    ensures CopyLosesNothing(view, before, c.src, c.dst, now, r) <==> !CopyLoses(view.files, before.files, c.src, c.dst)
  {
    hide BaseName, SameData, Safe, Findable, Erased, AddAll, Replaced, CopyKey, CopyRecord, Replicates, FilesCopied, FreshIds,
      StillRead, CopyLoses, CopiesAlong, Stays, IsCopied, CheckReplacement, KeysMatch, GathersFrom, Cleared;
    var published, lost :| Safe(before, published, lost);
    var t1 :| Cleared(view, FindByPath(view.files, TrimSlash(c.dst)), c.victims, t1) && GathersFrom(t1.files, c.src, c.items);
    var b1 :| Erased(before, c.victims, b1) && r == AddAll(b1, c.copies, |c.copies|);
    if CopyLoses(view.files, before.files, c.src, c.dst) {
      LosesSomething(view, before, published, lost, now, c, t1, b1, r);
    } else {
      forall k ensures Copes(view, before, c.src, c.dst, now, r, k) {
        if k in before.files && (Replaced(view.files, c.dst, k) ==> CopiesAlong(view.files, c.src, k)) {
          StaysThere(view, before, published, lost, now, c, t1, b1, r, k);
        }
        if CopiesAlong(view.files, c.src, k) { CopiedThere(view, before, published, lost, now, c, t1, b1, r, k); }
      }
    }
  }
}
