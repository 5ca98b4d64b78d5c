/** What a Badger move loses. It deletes whatever is under the key it replaces, and it re-keys what is under the
    source one record after the other under joined and cleaned paths; so it can sweep away part of its own source,
    and it can put two records under one key. */
module BadgerMoves {
  import opened Paths
  import opened Disk
  import opened Namespace
  import opened RootDirectory
  import opened IndexFiles
  import opened KeyOrder
  import opened Blobs
  import opened BadgerState
  import opened BadgerTransactions

  // ----- What should become of every record -----

  /** The record at k moves with the source. */
  predicate MovesAlong(src: Record, k: string) {
    k == src.meta.path || (src.meta.isDir && WithSlash(src.meta.path) <= k)
  }

  /** The key it should get. */
  function Target(src: Record, dst: string, r: Record): string {
    if r.meta.path == src.meta.path then dst else ChildPath(r, WithSlash(src.meta.path), dst)
  }

  /** The record is there, it is found by its ID, and its data is what it was. */
  ghost predicate KeptAs(t: Db, r: Db, rec: Record) {
    && rec.meta.path in r.files && r.files[rec.meta.path] == rec
    && rec.meta.id in r.index && r.index[rec.meta.id] == rec.meta.path
    && (!rec.meta.isDir ==> SameBlob(t.chunks, r.chunks, rec.blob))
  }

  /** What should become of the record at k: it moves with the source, it is replaced, or it stays. */
  ghost predicate Survives(t: Db, src: Record, dst: string, now: int, r: Db, k: string) {
    k in t.files ==>
      if MovesAlong(src, k) then KeptAs(t, r, MovedRecord(t.files[k], Target(src, dst, t.files[k]), now))
      else Replaced(t.files, dst, k) || KeptAs(t, r, t.files[k])
  }

  ghost predicate NothingLost(t: Db, src: Record, dst: string, now: int, r: Db) {
    forall k {:trigger Survives(t, src, dst, now, r, k)} :: Survives(t, src, dst, now, r, k)
  }

  // ----- When that fails, from the store before the move -----

  /** Something under the source, or the data of the source itself, is in the subtree that is replaced. */
  predicate SweptAt(t: Db, src: Record, dst: string, k: string) {
    k in t.files && MovesAlong(src, k) && Replaced(t.files, dst, k) &&
    (k != src.meta.path || (!src.meta.isDir && ChunkThere(t.chunks, src.blob, 0)))
  }

  /** The record at j is put where one ends up or stays, or under a key that is still to be vacated. */
  predicate ClashAt(files: Files, src: Record, dst: string, j: string, k: string) {
    j in files && k in files && j != k && MovesAlong(src, j) &&
    var key := Target(src, dst, files[j]);
    if MovesAlong(src, k) then
      key == Target(src, dst, files[k]) || (key == k && k != src.meta.path && (j == src.meta.path || Before(j, k)))
    else key == k && !Replaced(files, dst, k)
  }

  ghost predicate Loses(t: Db, src: Record, dst: string) {
    (exists k :: SweptAt(t, src, dst, k)) || (exists j, k :: ClashAt(t.files, src, dst, j, k))
  }

  /** The destination does not lie under the source's key. */
  predicate Outside(src: Record, dst: string) {
    src.meta.isDir ==> !(WithSlash(src.meta.path) <= dst)
  }

  // ----- One record after the other -----

  lemma {:induction false} LeftAlone(t: Db, items: seq<Record>, n: nat, prefix: string, dst: string, now: int, q: string)
    requires n <= |items|
    requires forall i :: 0 <= i < n ==> items[i].meta.path != q && ChildPath(items[i], prefix, dst) != q
    ensures var r := MoveAll(t, items, n, prefix, dst, now); (q in r.files <==> q in t.files) && (q in r.files ==> r.files[q] == t.files[q])
    decreases n
  {
    hide ChildPath, MovedRecord;
    if n > 0 { LeftAlone(t, items, n - 1, prefix, dst, now, q); }
  }

  lemma {:induction false} Written(t: Db, items: seq<Record>, n: nat, prefix: string, dst: string, now: int, i: nat)
    requires i < n <= |items|
    requires forall j :: i < j < n ==>
      items[j].meta.path != ChildPath(items[i], prefix, dst) && ChildPath(items[j], prefix, dst) != ChildPath(items[i], prefix, dst)
    ensures
      var r, q := MoveAll(t, items, n, prefix, dst, now), ChildPath(items[i], prefix, dst);
      q in r.files && r.files[q] == MovedRecord(items[i], q, now)
    decreases n
  {
    hide ChildPath, MovedRecord;
    if i < n - 1 { Written(t, items, n - 1, prefix, dst, now, i); }
  }

  lemma {:induction false} Vacated(t: Db, items: seq<Record>, n: nat, prefix: string, dst: string, now: int, i: nat)
    requires i < n <= |items|
    requires forall j :: i <= j < n ==> ChildPath(items[j], prefix, dst) != items[i].meta.path
    ensures items[i].meta.path !in MoveAll(t, items, n, prefix, dst, now).files
    decreases n
  {
    hide ChildPath, MovedRecord;
    if i < n - 1 { Vacated(t, items, n - 1, prefix, dst, now, i); }
  }

  /** No record gets an ID that none had. */
  ghost predicate HasId(files: Files, id: Id) {
    exists k :: k in files && files[k].meta.id == id
  }

  lemma {:induction false} IdsStay(t: Db, items: seq<Record>, n: nat, prefix: string, dst: string, now: int, id: Id)
    requires n <= |items| && forall i :: 0 <= i < |items| ==> HasId(t.files, items[i].meta.id)
    ensures HasId(MoveAll(t, items, n, prefix, dst, now).files, id) ==> HasId(t.files, id)
    decreases n
  {
    hide ChildPath, BaseName;
    if n > 0 {
      IdsStay(t, items, n - 1, prefix, dst, now, id);
      var a, x := MoveAll(t, items, n - 1, prefix, dst, now), items[n - 1];
      var b := MoveItem(a, x, ChildPath(x, prefix, dst), now);
      if HasId(b.files, id) {
        var k :| k in b.files && b.files[k].meta.id == id;
        if k != ChildPath(x, prefix, dst) { assert k in a.files && a.files[k] == b.files[k]; }
      }
    }
  }

  // ----- IDs -----

  /** Only the record itself may still have the ID of one that has to be moved. */
  ghost predicate OwnId(files: Files, x: Record) {
    forall k :: k in files && files[k].meta.id == x.meta.id ==> k == x.meta.path
  }

  lemma MoveItemFindable(a: Db, x: Record, newPath: string, now: int)
    requires Findable(a) && OwnId(a.files, x)
    ensures Findable(MoveItem(a, x, newPath, now))
    ensures forall y :: OwnId(a.files, y) && y.meta.id != x.meta.id ==> OwnId(MoveItem(a, x, newPath, now).files, y)
  {
    hide BaseName;
    forall k ensures FindableAt(MoveItem(a, x, newPath, now), k) { assert FindableAt(a, k); }
  }

  lemma {:induction false} MoveAllFindable(t: Db, items: seq<Record>, n: nat, prefix: string, dst: string, now: int)
    requires n <= |items| && Findable(t) && Drawn(t.files, items)
    ensures
      var a := MoveAll(t, items, n, prefix, dst, now);
      Findable(a) && forall i :: n <= i < |items| ==> OwnId(a.files, items[i])
    decreases n
  {
    hide ChildPath, BaseName, Findable;
    if n == 0 {
      forall i | 0 <= i < |items| ensures OwnId(t.files, items[i]) { DrawnOwnsId(t, items, i); }
    } else {
      var j: nat := n - 1;
      MoveAllFindable(t, items, j, prefix, dst, now);
      MoveItemFindable(MoveAll(t, items, j, prefix, dst, now), items[j], ChildPath(items[j], prefix, dst), now);
      forall i | n <= i < |items| ensures items[i].meta.id != items[j].meta.id {
        IdsDiffer(t, items[i].meta.path, items[j].meta.path);
      }
    }
  }

  lemma DrawnOwnsId(t: Db, items: seq<Record>, i: nat)
    requires Findable(t) && Drawn(t.files, items) && i < |items|
    ensures OwnId(t.files, items[i])
  {
    forall k | k in t.files && t.files[k].meta.id == items[i].meta.id ensures k == items[i].meta.path {
      IdsDiffer(t, k, items[i].meta.path);
    }
  }

  /** Whatever a move loses, every record that is there afterwards is found by its ID. */
  lemma MoveKeepsFindable(t: Db, published: set<BlobId>, lost: set<BlobId>, now: int, m: Moving, t1: Db, r: Db)
    requires Safe(t, published, lost) && Findable(t) && MovesVia(t, now, m, t1, r)
    requires exists k :: k in t.files && t.files[k] == m.src
    ensures Findable(r)
  {
    hide BaseName, ChildPath, MoveAll, InKeyOrder, WithSlash, Replaced, Cleared, Findable;
    ErasedFindable(t, published, lost, FindByPath(t.files, TrimSlash(m.dst)), m.victims, t1, m.src);
    MoveItemFindable(t1, m.src, m.dst, now);
    if m.src.meta.isDir {
      MoveAllFindable(MoveItem(t1, m.src, m.dst, now), m.children, |m.children|, WithSlash(m.src.meta.path), m.dst, now);
    }
  }

  lemma ErasedFindable(t: Db, published: set<BlobId>, lost: set<BlobId>, target: Option<Record>, victims: seq<Record>, t1: Db,
      src: Record)
    requires Safe(t, published, lost) && Findable(t) && Cleared(t, target, victims, t1)
    requires exists k :: k in t.files && t.files[k] == src
    ensures Findable(t1) && OwnId(t1.files, src)
  {
    EraseFindable(t, victims, t1);
    var k :| k in t.files && t.files[k] == src;
    assert Kept(t, published, lost, k);
    forall j | j in t1.files && t1.files[j].meta.id == src.meta.id ensures j == k {
      assert ErasedAt(t, victims, t1, j);
      IdsDiffer(t, j, k);
    }
  }

  // ----- The scene of a move -----

  /** A move via t1, the store without what is replaced, and t2, the store once the source itself has moved. */
  ghost predicate Scene(t: Db, published: set<BlobId>, lost: set<BlobId>, now: int, m: Moving, t1: Db, r: Db) {
    && Safe(t, published, lost) && Findable(t) && m.src.meta.path in t.files && t.files[m.src.meta.path] == m.src
    && Outside(m.src, m.dst) && MovesVia(t, now, m, t1, r)
  }

  lemma SceneKeys(t: Db, published: set<BlobId>, lost: set<BlobId>, now: int, m: Moving, t1: Db, r: Db, k: string)
    requires Scene(t, published, lost, now, m, t1, r)
    ensures k in t.files ==> t.files[k].meta.path == k
    ensures k in t1.files <==> k in t.files && !Replaced(t.files, m.dst, k)
    ensures k in t1.files ==> t1.files[k] == t.files[k]
  {
    hide BaseName, ChildPath, MoveAll, InKeyOrder;
    assert Kept(t, published, lost, k) && ErasedAt(t, m.victims, t1, k);
    if k in t.files { VictimsAreReplaced(t, m.dst, m.victims, t1, k); }
  }

  lemma SceneFindable(t: Db, published: set<BlobId>, lost: set<BlobId>, now: int, m: Moving, t1: Db, r: Db, k: string)
    requires Scene(t, published, lost, now, m, t1, r)
    ensures FindableAt(r, k)
  {
    hide MovesVia, Safe, WithSlash;
    MoveKeepsFindable(t, published, lost, now, m, t1, r);
  }

  /** The children are the records under the source that have not been replaced. */
  lemma SceneChildren(t: Db, published: set<BlobId>, lost: set<BlobId>, now: int, m: Moving, t1: Db, r: Db)
    requires Scene(t, published, lost, now, m, t1, r)
    ensures InKeyOrder(m.children)
    ensures forall i :: 0 <= i < |m.children| ==> ChildFacts(t, m, m.children[i])
    ensures forall k :: k in t.files && MovesAlong(m.src, k) && k != m.src.meta.path && !Replaced(t.files, m.dst, k) ==> Includes(m.children, k)
  {
    hide BaseName, ChildPath, MoveAll, Safe, WithSlash, Replaced, Before, Erased, TrimSlash, FindByPath;
    var t2 := MoveItem(t1, m.src, m.dst, now);
    if m.src.meta.isDir {
      forall i | 0 <= i < |m.children| ensures ChildFacts(t, m, m.children[i]) {
        var c := m.children[i];
        assert Includes(m.children, c.meta.path);
        SceneKeys(t, published, lost, now, m, t1, r, c.meta.path);
      }
    }
    forall k | k in t.files && MovesAlong(m.src, k) && k != m.src.meta.path && !Replaced(t.files, m.dst, k)
      ensures Includes(m.children, k)
    {
      SceneKeys(t, published, lost, now, m, t1, r, k);
      assert k in t2.files;
    }
  }

  predicate ChildFacts(t: Db, m: Moving, c: Record) {
    && c.meta.path in t.files && t.files[c.meta.path] == c && m.src.meta.isDir && MovesAlong(m.src, c.meta.path)
    && c.meta.path != m.src.meta.path && !Replaced(t.files, m.dst, c.meta.path)
  }

  /** The files of the result are those of t2 with the children moved, and its chunks those of t1. */
  lemma SceneResult(t: Db, published: set<BlobId>, lost: set<BlobId>, now: int, m: Moving, t1: Db, r: Db)
    requires Scene(t, published, lost, now, m, t1, r)
    ensures
      var t2 := MoveItem(t1, m.src, m.dst, now);
      r == MoveAll(t2, m.children, |m.children|, WithSlash(m.src.meta.path), m.dst, now) && r.chunks == t1.chunks
  {
    hide BaseName, ChildPath, Safe, WithSlash, Replaced, Before, InKeyOrder, Cleared, Under;
    var t2 := MoveItem(t1, m.src, m.dst, now);
    MoveAllKeepsChunks(t2, m.children, |m.children|, WithSlash(m.src.meta.path), m.dst, now);
  }

  // ----- Nothing lost if nothing is swept and nothing clashes -----

  /** Data of what is not replaced stays, and without a first chunk there is none to lose. */
  lemma DataStays(t: Db, published: set<BlobId>, lost: set<BlobId>, now: int, m: Moving, t1: Db, r: Db, k: string)
    requires Scene(t, published, lost, now, m, t1, r) && k in t.files && !t.files[k].meta.isDir
    requires !Replaced(t.files, m.dst, k) || !ChunkThere(t.chunks, t.files[k].blob, 0)
    ensures SameBlob(t.chunks, r.chunks, t.files[k].blob)
  {
    hide BaseName, ChildPath, MoveAll, Before, InKeyOrder, Complete;
    SceneResult(t, published, lost, now, m, t1, r);
    assert Kept(t, published, lost, k);
    VictimsAreReplaced(t, m.dst, m.victims, t1, k);
    ClearedSafe(t, published, lost, FindByPath(t.files, TrimSlash(m.dst)), m.victims, t1);
    var blob := t.files[k].blob;
    if Replaced(t.files, m.dst, k) {
      VictimHasNoChunks(t, m.victims, t1, k);
      NoFirstChunk(t, lost, t.files[k]);
      forall i: nat ensures SameChunk(t.chunks, t1.chunks, ChunkKey(blob, i)) {
        assert !ChunkThere(t.chunks, blob, i) && !ChunkThere(t1.chunks, blob, i);
      }
    } else {
      SurvivorOwnsItsBlob(t, published, lost, m.victims, k);
      forall i: nat ensures SameChunk(t.chunks, t1.chunks, ChunkKey(blob, i)) {
        assert UnchunkedAt(t, m.victims, t1, ChunkKey(blob, i));
      }
    }
  }

  lemma NoFirstChunk(t: Db, lost: set<BlobId>, rec: Record)
    requires HasOrLost(t.chunks, lost, rec) && !ChunkThere(t.chunks, rec.blob, 0)
    ensures Absent(t.chunks, rec.blob)
  {
    if rec.blob !in lost {
      var content :| |content| == rec.meta.size && Complete(t.chunks, rec.blob, content);
      assert ChunkCount(|content|) == 0;
      forall i: nat ensures !ChunkThere(t.chunks, rec.blob, i) {
        assert ChunkFits(t.chunks, rec.blob, content, i);
      }
    }
  }

  lemma SourceKept(t: Db, published: set<BlobId>, lost: set<BlobId>, now: int, m: Moving, t1: Db, r: Db)
    requires Scene(t, published, lost, now, m, t1, r) && !Loses(t, m.src, m.dst)
    ensures Survives(t, m.src, m.dst, now, r, m.src.meta.path)
  {
    hide BaseName, ChildPath, MoveAll, Safe, MovesVia, Before, InKeyOrder, WithSlash, SameData, Replaced;
    var k := m.src.meta.path;
    SceneChildren(t, published, lost, now, m, t1, r);
    SceneResult(t, published, lost, now, m, t1, r);
    SceneKeys(t, published, lost, now, m, t1, r, k);
    var t2, rec := MoveItem(t1, m.src, m.dst, now), MovedRecord(m.src, m.dst, now);
    forall i | 0 <= i < |m.children| ensures m.children[i].meta.path != m.dst && ChildPath(m.children[i], WithSlash(k), m.dst) != m.dst {
      assert ChildFacts(t, m, m.children[i]);
      assert !ClashAt(t.files, m.src, m.dst, k, m.children[i].meta.path);
    }
    LeftAlone(t2, m.children, |m.children|, WithSlash(k), m.dst, now, m.dst);
    assert !SweptAt(t, m.src, m.dst, k);
    SceneFindable(t, published, lost, now, m, t1, r, m.dst);
    if !m.src.meta.isDir { DataStays(t, published, lost, now, m, t1, r, k); }
  }

  lemma ChildKept(t: Db, published: set<BlobId>, lost: set<BlobId>, now: int, m: Moving, t1: Db, r: Db, k: string)
    requires Scene(t, published, lost, now, m, t1, r) && !Loses(t, m.src, m.dst)
    requires k in t.files && MovesAlong(m.src, k) && k != m.src.meta.path
    ensures Survives(t, m.src, m.dst, now, r, k)
  {
    hide BaseName, ChildPath, MoveAll, Safe, MovesVia, Before, WithSlash, SameData, Replaced;
    SceneChildren(t, published, lost, now, m, t1, r);
    SceneResult(t, published, lost, now, m, t1, r);
    SceneKeys(t, published, lost, now, m, t1, r, k);
    assert !SweptAt(t, m.src, m.dst, k);
    assert Includes(m.children, k);
    var i :| 0 <= i < |m.children| && m.children[i].meta.path == k;
    var t2, prefix := MoveItem(t1, m.src, m.dst, now), WithSlash(m.src.meta.path);
    assert ChildFacts(t, m, m.children[i]);
    var key := ChildPath(t.files[k], prefix, m.dst);
    forall j | i < j < |m.children| ensures m.children[j].meta.path != key && ChildPath(m.children[j], prefix, m.dst) != key {
      assert ChildFacts(t, m, m.children[j]);
      BeforeIsStrict(k, m.children[j].meta.path);
      assert !ClashAt(t.files, m.src, m.dst, k, m.children[j].meta.path);
    }
    Written(t2, m.children, |m.children|, prefix, m.dst, now, i);
    SceneFindable(t, published, lost, now, m, t1, r, key);
    if !t.files[k].meta.isDir { DataStays(t, published, lost, now, m, t1, r, k); }
  }

  lemma OtherKept(t: Db, published: set<BlobId>, lost: set<BlobId>, now: int, m: Moving, t1: Db, r: Db, k: string)
    requires Scene(t, published, lost, now, m, t1, r) && !Loses(t, m.src, m.dst)
    requires k in t.files && !MovesAlong(m.src, k) && !Replaced(t.files, m.dst, k)
    ensures Survives(t, m.src, m.dst, now, r, k)
  {
    hide BaseName, ChildPath, MoveAll, Safe, MovesVia, Before, InKeyOrder, WithSlash, SameData, Replaced;
    SceneChildren(t, published, lost, now, m, t1, r);
    SceneResult(t, published, lost, now, m, t1, r);
    SceneKeys(t, published, lost, now, m, t1, r, k);
    var t2, prefix := MoveItem(t1, m.src, m.dst, now), WithSlash(m.src.meta.path);
    assert !ClashAt(t.files, m.src, m.dst, m.src.meta.path, k);
    forall i | 0 <= i < |m.children| ensures m.children[i].meta.path != k && ChildPath(m.children[i], prefix, m.dst) != k {
      assert ChildFacts(t, m, m.children[i]);
      assert !ClashAt(t.files, m.src, m.dst, m.children[i].meta.path, k);
    }
    LeftAlone(t2, m.children, |m.children|, prefix, m.dst, now, k);
    SceneFindable(t, published, lost, now, m, t1, r, k);
    if !t.files[k].meta.isDir { DataStays(t, published, lost, now, m, t1, r, k); }
  }

  // ----- Something lost otherwise -----

  lemma ResultIds(t: Db, published: set<BlobId>, lost: set<BlobId>, now: int, m: Moving, t1: Db, r: Db, id: Id)
    requires Scene(t, published, lost, now, m, t1, r)
    ensures HasId(r.files, id) ==> id == m.src.meta.id || HasId(t1.files, id)
  {
    hide BaseName, ChildPath, MoveAll, Safe, Before, InKeyOrder, Cleared;
    var t2 := MoveItem(t1, m.src, m.dst, now);
    SceneResult(t, published, lost, now, m, t1, r);
    forall i | 0 <= i < |m.children| ensures HasId(t2.files, m.children[i].meta.id) {
      assert m.children[i].meta.path in t2.files;
    }
    IdsStay(t2, m.children, |m.children|, WithSlash(m.src.meta.path), m.dst, now, id);
    if HasId(t2.files, id) {
      var k :| k in t2.files && t2.files[k].meta.id == id;
      if k != m.dst { assert k in t1.files && t1.files[k].meta.id == id; }
    }
  }

  lemma SweptLost(t: Db, published: set<BlobId>, lost: set<BlobId>, now: int, m: Moving, t1: Db, r: Db, k: string)
    requires Scene(t, published, lost, now, m, t1, r) && SweptAt(t, m.src, m.dst, k)
    ensures !Survives(t, m.src, m.dst, now, r, k)
  {
    hide ChildPath, MoveAll, Before, InKeyOrder, WithSlash, BaseName;
    var was := t.files[k];
    if k == m.src.meta.path {
      SceneResult(t, published, lost, now, m, t1, r);
      VictimsAreReplaced(t, m.dst, m.victims, t1, k);
      ClearedSafe(t, published, lost, FindByPath(t.files, TrimSlash(m.dst)), m.victims, t1);
      VictimHasNoChunks(t, m.victims, t1, k);
      assert !ChunkThere(t1.chunks, was.blob, 0) && !SameChunk(t.chunks, t1.chunks, ChunkKey(was.blob, 0));
    } else {
      ResultIds(t, published, lost, now, m, t1, r, was.meta.id);
      ErasedId(t, published, lost, now, m, t1, r, k);
      assert !HasId(r.files, was.meta.id);
    }
  }

  /** The ID of a child that has been replaced is gone. */
  lemma ErasedId(t: Db, published: set<BlobId>, lost: set<BlobId>, now: int, m: Moving, t1: Db, r: Db, k: string)
    requires Scene(t, published, lost, now, m, t1, r) && k in t.files && Replaced(t.files, m.dst, k) && k != m.src.meta.path
    ensures t.files[k].meta.id != m.src.meta.id && !HasId(t1.files, t.files[k].meta.id)
  {
    hide BaseName, ChildPath, MoveAll, Safe, Before, InKeyOrder, MovesVia, Replaced;
    forall j | j in t1.files ensures t1.files[j].meta.id != t.files[k].meta.id {
      SceneKeys(t, published, lost, now, m, t1, r, j);
      IdsDiffer(t, j, k);
    }
    IdsDiffer(t, m.src.meta.path, k);
  }

  lemma ClashLost(t: Db, published: set<BlobId>, lost: set<BlobId>, now: int, m: Moving, t1: Db, r: Db, j: string, k: string)
    requires Scene(t, published, lost, now, m, t1, r) && ClashAt(t.files, m.src, m.dst, j, k)
    requires forall x :: !SweptAt(t, m.src, m.dst, x)
    ensures !NothingLost(t, m.src, m.dst, now, r)
  {
    hide BaseName, ChildPath, MoveAll, Safe, MovesVia, Before, WithSlash, SameData, Replaced;
    if NothingLost(t, m.src, m.dst, now, r) {
      assert Survives(t, m.src, m.dst, now, r, j) && Survives(t, m.src, m.dst, now, r, k);
      var key := Target(m.src, m.dst, t.files[j]);
      IdsDiffer(t, j, k);
      SceneKeys(t, published, lost, now, m, t1, r, k);
      if MovesAlong(m.src, k) && key != Target(m.src, m.dst, t.files[k]) {
        SceneChildren(t, published, lost, now, m, t1, r);
        SceneResult(t, published, lost, now, m, t1, r);
        assert !SweptAt(t, m.src, m.dst, k);
        assert Includes(m.children, k);
        var i :| 0 <= i < |m.children| && m.children[i].meta.path == k;
        var t2, prefix := MoveItem(t1, m.src, m.dst, now), WithSlash(m.src.meta.path);
        forall l | i <= l < |m.children| ensures ChildPath(m.children[l], prefix, m.dst) != k {
          assert ChildFacts(t, m, m.children[l]) && ChildFacts(t, m, m.children[i]);
          BeforeIsStrict(j, k);
          LaterIsOther(m.children, i, l, j);
          assert Survives(t, m.src, m.dst, now, r, m.children[l].meta.path);
          IdsDiffer(t, j, m.children[l].meta.path);
        }
        Vacated(t2, m.children, |m.children|, prefix, m.dst, now, i);
      }
    }
  }

  /** The record that comes before i is none from i on. */
  lemma LaterIsOther(items: seq<Record>, i: nat, l: nat, j: string)
    requires i <= l < |items| && InKeyOrder(items) && Before(j, items[i].meta.path)
    ensures items[l].meta.path != j
  {
    hide Before;
    BeforeIsStrict(j, items[i].meta.path);
  }

  // ----- The result -----

  /** A Badger move moves every record at or under its source, and leaves every other one that it does not replace,
      each with its data, if and only if it replaces nothing under its source and not its source's data, and no two
      records get into each other's way. */
  lemma MoveLosesNothingIff(t: Db, published: set<BlobId>, lost: set<BlobId>, id: Id, now: int, m: Moving, r: Db)
    requires Safe(t, published, lost) && Findable(t) && MovesTo(t, id, now, m, r) && Outside(m.src, m.dst)
    ensures NothingLost(t, m.src, m.dst, now, r) <==> !Loses(t, m.src, m.dst)
  {
    hide BaseName, ChildPath, MoveAll, MovesVia, Before, InKeyOrder, WithSlash, SameData, Replaced;
    var t1 :| MovesVia(t, now, m, t1, r);
    assert Kept(t, published, lost, t.index[id]);
    if Loses(t, m.src, m.dst) {
      if k :| SweptAt(t, m.src, m.dst, k) {
        SweptLost(t, published, lost, now, m, t1, r, k);
      } else {
        var j, k :| ClashAt(t.files, m.src, m.dst, j, k);
        ClashLost(t, published, lost, now, m, t1, r, j, k);
      }
    } else {
      forall k ensures Survives(t, m.src, m.dst, now, r, k) {
        if k in t.files {
          if k == m.src.meta.path { SourceKept(t, published, lost, now, m, t1, r); }
          else if MovesAlong(m.src, k) { ChildKept(t, published, lost, now, m, t1, r, k); }
          else if !Replaced(t.files, m.dst, k) { OtherKept(t, published, lost, now, m, t1, r, k); }
        }
      }
    }
  }

  // ----- The destination of an accepted move -----

  /** A clean key under a directory's key makes the directory an ancestor, which TransferPath refuses. */
  lemma AcceptedIsOutside(src: Record, value: string)
    ensures
      var d := TransferPath(Clean(Split(src.meta.path)), src.meta.isDir, value);
      d.Some? ==> Outside(src, Stored(d.value, src.meta.isDir))
  {
    hide Clean, Split, TrimSpace, TransferPath, Stored, HasForbidden, WithSlash, CleanPath;
    var s := Clean(Split(src.meta.path));
    CleanOfSplit(src.meta.path);
    TransferPathDecidesAncestry(s, src.meta.isDir, value);
    var d := Clean(Split(TrimSpace(value)));
    CleanOfSplit(TrimSpace(value));
    if src.meta.isDir && d != [] && WithSlash(src.meta.path) <= Stored(d, true) { UnderMeansBelow(src.meta.path, d); }
  }

  lemma UnderMeansBelow(key: string, d: Path)
    requires CleanPath(d) && d != [] && WithSlash(key) <= Stored(d, true)
    ensures Clean(Split(key)) <= d
  {
    hide Clean, Split, Render, CleanPath, WithSlash;
    var whole, prefix := Stored(d, true), WithSlash(key);
    var a := Unslashed(key);
    var b := whole[|prefix|..];
    assert whole == a + "/" + b;
    SplitConcat(a, b);
    DirectoryParts(d);
    PartsBefore(Split(a), Split(b), d);
    CleanOfNames(d, |Split(a)| - 1);
    WithoutSlash(key, a);
  }

  lemma Unslashed(key: string) returns (a: string)
    ensures WithSlash(key) == a + "/"
  {
    a := WithSlash(key)[..|WithSlash(key)| - 1];
  }

  lemma DirectoryParts(d: Path)
    requires CleanPath(d) && d != []
    ensures Split(Stored(d, true)) == [""] + d + [""]
  {
    hide Split, Render;
    SplitRender(d);
    SplitTrailingSlash(Render(d));
  }

  lemma CleanOfNames(d: Path, n: nat)
    requires CleanPath(d) && n <= |d|
    ensures Clean([""] + d[..n]) == d[..n]
  {
    hide Clean;
    assert CleanPath(d[..n]);
    CleanKeeps(d[..n]);
    CleanLeading(d[..n]);
  }

  lemma WithoutSlash(key: string, a: string)
    requires WithSlash(key) == a + "/"
    ensures Clean(Split(key)) == Clean(Split(a))
  {
    hide Clean, Split;
    if key == a + "/" {
      SplitConcat(a, "");
      EmptySplit();
      assert a + "/" + "" == key;
      CleanTrailing(Split(a));
    } else {
      assert (key + "/")[..|key|] == key && (a + "/")[..|a|] == a;
    }
  }

  lemma PartsBefore(a: seq<string>, b: seq<string>, d: Path)
    requires a != [] && b != [] && a + b == [""] + d + [""]
    ensures |a| - 1 <= |d| && a == [""] + d[..|a| - 1]
  {
    var whole := [""] + d + [""];
    assert a == whole[..|a|];
  }
}
