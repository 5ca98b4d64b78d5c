/** Which Badger copies lose something: in the spelling of namespaces none that replaces nothing or runs alone, but
    stores that Move and Create make have copies that overwrite what they were not asked to replace. */
module CopyLosses {
  import opened Paths
  import opened Disk
  import opened Namespace
  import opened RootDirectory
  import opened EntryMaps
  import opened IndexFiles
  import opened Restoring
  import opened Blobs
  import opened BadgerState
  import opened BadgerTransactions
  import opened BadgerMoves
  import opened BadgerCopies
  import opened BadgerDriver
  import opened Refinement
  import opened Differences
  import opened MoveLosses

  // ----- In the spelling of a namespace -----

  /** Where a namespace has nothing at a path, it has no key at or under it. */
  lemma VacantKeys(t: Db, ids: Entries, d: Path, isDir: bool, k: string)
    requires NamespaceOk(ids) && Spelt(t, ids) && CleanPath(d) && d != [] && k in t.files
    requires FindByPath(t.files, TrimSlash(Stored(d, isDir))).None?
    ensures !(Stored(d, true) <= k) && k != Stored(d, false)
  {
    hide Stored, TrimSlash, FindByPath;
    FindByPathFinds(t, ids, d, isDir);
    var x := KeyOfEntry(t, ids, k);
    KeyAtOrUnder(ids, d, x);
    if d <= ids[x].path && d != ids[x].path { AncestorIndexed(ids, x, d); }
  }

  /** The key of an entry lies at or under a path exactly if the entry does, a directory under a file's key aside. */
  lemma KeyAtOrUnder(ids: Entries, d: Path, x: Id)
    requires NamespaceOk(ids) && CleanPath(d) && d != [] && x in ids
    ensures Stored(d, true) <= KeyString(ids[x]) || KeyString(ids[x]) == Stored(d, false) ==> d <= ids[x].path
  {
    hide Stored;
    NamespaceSensible(ids);
    StoredIsClean(ids[x].path);
    StoredPrefix(d, ids[x].path, ids[x].isDir);
    KeyStringInjective(ids[x], Meta(NIL, d, false, "", 0, 0, ""));
  }

  /** A copy's key lies under the destination, and a file's is the destination. */
  lemma CopyKeyUnder(files: Files, src: Record, dst: string, j: string)
    requires CopiesAlong(files, src, j)
    ensures dst <= CopyKey(src.meta.path, dst, j) && (!src.meta.isDir ==> CopyKey(src.meta.path, dst, j) == dst)
  {
  }

  lemma NamespaceNotSweptAway(view: Db, ids: Entries, src: Meta, d: Path, k: string)
    requires NamespaceOk(ids) && Spelt(view, ids) && MayMove(ids, src, d) && KeyString(src) in view.files
    requires view.files[KeyString(src)].meta == RowOf(src)
    ensures !SweptAway(view.files, view.files[KeyString(src)], Stored(d, src.isDir), k)
  {
    hide Stored, NamespaceOk, Spelt, StoredPath, Replaced, InTree;
    if k in view.files {
      var x := KeyOfEntry(view, ids, k);
      SpeltThere(view, ids, x);
      ReplacedIsBelow(view, ids, d, src.isDir, x);
      NamespaceSensible(ids);
      Distinct(ids, src.id, x);
      InTreeIsInSubtree(src, ids[x], view.files[KeyString(src)], view.files[k]);
      InSubtreeIsBelow(ids, src.id, x);
      if d <= ids[x].path && src.path <= ids[x].path { Comparable(d, src.path, ids[x].path); }
    }
  }

  lemma SpeltKeysMatch(t: Db, ids: Entries)
    requires NamespaceOk(ids) && Spelt(t, ids)
    ensures KeysMatch(t.files)
  {
    hide Stored;
    forall k | k in t.files ensures t.files[k].meta.path == k {
      var x := KeyOfEntry(t, ids, k);
      SpeltThere(t, ids, x);
    }
  }

  /** On the spelling of namespaces every accepted copy that replaces nothing loses nothing, whatever has run between
      its look and its commit; and so does one that replaces something if nothing has run. */
  lemma NamespaceCopyLosesNothing(view: Db, before: Db, ids: Entries, later: Entries, id: Id, value: string,
      replace: Option<Id>, now: int, c: Copying, r: Db)
    requires NamespaceOk(ids) && Spelt(view, ids) && id in ids && NamespaceOk(later) && Spelt(before, later) && Sound(before)
    requires CopyReads(view, id, value, replace, c) && CopyWrites(view, before, now, c, r)
    requires replace == Some(NIL) || before.files == view.files
    ensures CopyLosesNothing(view, before, c.src, c.dst, now, r)
  {
    hide Stored, TransferPath, Clean, Split, StoredPath, CleanPath, TrimSlash, FindByPath, TrimSpace, SweptAway, Overwrites,
      NamespaceOk, Spelt, Sound, MayMove, CopyWrites, CopyGathers, CopyLosesNothing;
    var src := ids[id];
    SourceRecord(view, ids, id);
    SpeltThere(view, ids, id);
    var d := TransferPath(Clean(Split(c.src.meta.path)), c.src.meta.isDir, value).value;
    AcceptedMayMove(ids, id, value, d);
    forall k ensures !SweptAway(view.files, c.src, c.dst, k) { NamespaceNotSweptAway(view, ids, src, d, k); }
    forall j ensures !Overwrites(view.files, before.files, c.src, c.dst, j) {
      NamespaceNotOverwritten(view, before, ids, later, replace, now, c, r, src, d, j);
    }
    SpeltKeysMatch(view, ids);
    CopyLosesNothingIff(view, before, replace, now, c, r);
  }

  lemma NamespaceNotOverwritten(view: Db, before: Db, ids: Entries, later: Entries, replace: Option<Id>, now: int, c: Copying,
      r: Db, src: Meta, d: Path, j: string)
    requires NamespaceOk(ids) && Spelt(view, ids) && NamespaceOk(later) && Spelt(before, later) && MayMove(ids, src, d)
    requires CopyGathers(view, replace, c) && CopyWrites(view, before, now, c, r)
    requires c.dst == Stored(d, c.src.meta.isDir) && (replace == Some(NIL) || before.files == view.files)
    ensures !Overwrites(view.files, before.files, c.src, c.dst, j)
  {
    hide Stored, TrimSlash, FindByPath, Spelt, NamespaceOk, CleanPath, Replaced, CopiesAlong, CopyKey, Cleared, GathersFrom,
      Replicates, FilesCopied, FreshIds, Erased, Unchanged;
    var key := CopyKey(c.src.meta.path, c.dst, j);
    if CopiesAlong(view.files, c.src, j) && key in before.files {
      CopyKeyUnder(view.files, c.src, c.dst, j);
      if replace == Some(NIL) {
        VacantKeys(before, later, d, c.src.meta.isDir, key);
      } else {
        var y := KeyOfEntry(view, ids, key);
        KeyAtOrUnder(ids, d, y);
        ReplacedIsBelow(view, ids, d, c.src.meta.isDir, y);
      }
    }
  }

  // ----- A record without a parent directory -----

  /** A copy puts a record with an ID of its own over the one that was there. */
  lemma PutOver(view: Db, before: Db, published: set<BlobId>, lost: set<BlobId>, replace: Option<Id>, now: int, c: Copying, r: Db,
      j: string)
    requires KeysMatch(view.files) && c.src.meta.path in view.files && view.files[c.src.meta.path] == c.src
    requires Safe(before, published, lost) && Findable(before)
    requires CopyGathers(view, replace, c) && CopyWrites(view, before, now, c, r)
    requires Overwrites(view.files, before.files, c.src, c.dst, j) && !SweptAway(view.files, c.src, c.dst, j)
    ensures
      var key := CopyKey(c.src.meta.path, c.dst, j);
      key in r.files && r.files[key].meta.id !in before.index && !Stays(before, r, key) &&
      FindById(r, before.files[key].meta.id) == Some(r.files[key])
  {
    hide BaseName, SameData, Safe, Findable, Erased, AddAll, Replaced, CopyKey, CopyRecord, Cleared, Stays;
    var t1 :| Cleared(view, FindByPath(view.files, TrimSlash(c.dst)), c.victims, t1) && GathersFrom(t1.files, c.src, c.items);
    var b1 :| Erased(before, c.victims, b1) && r == AddAll(b1, c.copies, |c.copies|);
    Replacing(view, before, published, lost, now, c, t1, b1, r, j);
    assert Includes(c.items, j);
    var i :| 0 <= i < |c.items| && c.items[i].meta.path == j;
    StageItems(view, before, published, lost, now, c, t1, b1, r, i);
    var key := CopyKey(c.src.meta.path, c.dst, j);
    assert c.copies[i].meta.path == key;
    AddAllAt(b1, c.copies, |c.copies|, key);
    OthersId(view, before, published, lost, now, c, t1, b1, r, key);
    Replacing(view, before, published, lost, now, c, t1, b1, r, key);
    StageVictims(view, before, published, lost, now, c, t1, b1, r);
    IndexLeft(before, c.victims, b1, key);
    AddAllIndex(b1, c.copies, |c.copies|, before.files[key].meta.id);
  }

  lemma IndexLeft(t: Db, items: seq<Record>, r: Db, k: string)
    requires Findable(t) && Drawn(t.files, items) && Erased(t, items, r) && k in t.files && !Includes(items, k)
    ensures t.files[k].meta.id in t.index && t.files[k].meta.id in r.index && r.index[t.files[k].meta.id] == k
  {
    var id := t.files[k].meta.id;
    assert FindableAt(t, k) && UnindexedAt(t, items, r, id);
    if IncludesId(items, id) {
      var i :| 0 <= i < |items| && items[i].meta.id == id;
      IdsDiffer(t, k, items[i].meta.path);
    }
  }

  lemma {:induction false} AddAllIndex(t: Db, copies: seq<Record>, n: nat, id: Id)
    requires n <= |copies| && id in t.index && forall i :: 0 <= i < n ==> copies[i].meta.id != id
    ensures id in AddAll(t, copies, n).index && AddAll(t, copies, n).index[id] == t.index[id]
    decreases n
  {
    if n > 0 { AddAllIndex(t, copies, n - 1, id); }
  }

  /** A directory /s with a file x in it, and a file /f. */
  function FreeStore(): Db {
    var empty := Db(map[], map[], map[ChunkKey(1, 0) := [65], ChunkKey(2, 0) := [65]]);
    AddRecord(AddRecord(AddRecord(empty, DirectoryRecord(1, "/s/")), FileRecord(2, "/s/x", 1)), FileRecord(3, "/f", 2))
  }

  /** The same once /f has been moved to /d/x, although there is no /d. */
  function OrphanStore(now: int): Db {
    MoveItem(FreeStore(), FileRecord(3, "/f", 2), "/d/x", now)
  }

  lemma FreeStoreArises()
    ensures
      var t := FreeStore();
      NewValueRefusal(map[], "/s", true).None? &&
      NewValueRefusal(t.files - {"/s/x", "/f"}, "/s/x", false).None? &&
      NewValueRefusal(t.files - {"/f"}, "/f", false).None?
  {
    hide NewValueRefusal, BaseName;
    var t := FreeStore();
    NewBelow(map[], "", "s", true);
    assert "" + "/" + "s" == "/s" && "/s" + "/" == "/s/" && "/s" + "/" + "x" == "/s/x" && "/s/x" + "" == "/s/x";
    NewBelow(t.files - {"/s/x", "/f"}, "/s", "x", false);
    assert "" + "/" + "f" == "/f" && "/f" + "" == "/f";
    NewBelow(t.files - {"/f"}, "", "f", false);
  }

  lemma OrphanPath()
    ensures TransferPath(Clean(Split("/f")), false, "/d/x") == Some(["d", "x"]) && Stored(["d", "x"], false) == "/d/x"
  {
    hide Split, Clean, TrimSpace, TransferPath, StoragePath, Stored, Render;
    CleanOfOne("f");
    assert "/" + "f" == "/f" && "/" + "d" == "/d" && "/d" + "/" + "x" == "/d/x";
    SplitTwo("d");
    SplitMore("/d", "x");
    CleanKeeps(["d", "x"]);
    CleanLeading(["d", "x"]);
    assert [""] + ["d", "x"] == ["", "d"] + ["x"];
    PlainArgument("/d/x");
    StoredTwo("d", "x");
    RenderHasNoForbidden(["d", "x"]);
    TransferPathDecidesAncestry(["f"], false, "/d/x");
    assert ["f"][0] == "f" && ["d", "x"][0] == "d" && !(["d", "x"] <= ["f"]);
  }

  /** Move lets that through, and makes this store. */
  lemma OrphanArises(now: int, m: Moving, r: Db)
    requires Moves(FreeStore(), 3, "/d/x", None, now, m, r)
    ensures r == OrphanStore(now)
  {
    hide TransferPath, Clean, Split, Stored, BaseName, CheckReplacement;
    OrphanPath();
    var t := FreeStore();
    assert m.src == FileRecord(3, "/f", 2) && m.dst == "/d/x";
    assert TrimSlash("/d/x") == "/d/x" && "/d/x" !in t.files && "/d/x" + "/" == "/d/x/" && "/d/x/" !in t.files;
    var t1 :| MovesVia(t, now, m, t1, r);
    NothingIsErased(t, t1);
  }

  lemma OrphanAccepted()
    ensures TransferRefusal(FreeStore(), 3, "/d/x", None).None?
  {
    hide TransferPath, Clean, Split, Stored, BaseName;
    OrphanPath();
    assert FindById(FreeStore(), 3) == Some(FileRecord(3, "/f", 2));
  }

  lemma NothingIsErased(t: Db, r: Db)
    requires Erased(t, [], r)
    ensures r == t
  {
    forall k ensures (k in r.files <==> k in t.files) && (k in r.files ==> r.files[k] == t.files[k]) {
      assert ErasedAt(t, [], r, k);
    }
    forall id ensures (id in r.index <==> id in t.index) && (id in r.index ==> r.index[id] == t.index[id]) {
      assert UnindexedAt(t, [], r, id);
    }
    forall key ensures (key in r.chunks <==> key in t.chunks) && (key in r.chunks ==> r.chunks[key] == t.chunks[key]) {
      assert UnchunkedAt(t, [], r, key);
    }
    assert r.files == t.files && r.index == t.index && r.chunks == t.chunks;
  }

  lemma OrphanStoreSafe(now: int)
    ensures Safe(OrphanStore(now), {1, 2}, {}) && Findable(OrphanStore(now))
  {
    hide BaseName;
    var t := OrphanStore(now);
    OneByte(t.chunks, 1);
    OneByte(t.chunks, 2);
    assert Whole(t.chunks, t.files["/s/x"]) && Whole(t.chunks, t.files["/d/x"]);
    forall k ensures Kept(t, {1, 2}, {}, k) { }
    forall k ensures FindableAt(t, k) { }
    forall j, k ensures Separate(t.files, j, k) { }
  }

  lemma CopyToD()
    ensures TransferPath(Clean(Split("/s/")), true, "/d") == Some(["d"]) && Stored(["d"], true) == "/d/"
  {
    hide Split, Clean, TrimSpace, Render, TransferPath, StoragePath;
    CleanOfOne("s");
    CleanOfOne("d");
    assert "/" + "s" == "/s" && "/s" + "/" == "/s/" && "/" + "d" == "/d" && "/d" + "/" == "/d/";
    WithoutSlash("/s/", "/s");
    PlainArgument("/d");
    PlainName("d");
    TransferPathDecidesAncestry(["s"], true, "/d");
    assert ["s"][0] == "s" && ["d"][0] == "d" && !(["s"] <= ["d"]) && !(["d"] <= ["s"]);
  }

  /** For a copy of /s the path /d is free. */
  lemma OrphanCopyAccepted(now: int)
    ensures TransferRefusal(OrphanStore(now), 1, "/d", Some(NIL)).None?
  {
    hide TransferPath, Clean, Split, Stored, BaseName;
    CopyToD();
    var t := OrphanStore(now);
    assert FindById(t, 1) == Some(DirectoryRecord(1, "/s/"));
    assert TrimSlash("/d/") == "/d" && "/d" + "/" == "/d/" && "/d" !in t.files && "/d/" !in t.files;
  }

  lemma OrphanInTheWay(now: int)
    ensures
      var t, src := OrphanStore(now), DirectoryRecord(1, "/s/");
      Overwrites(t.files, t.files, src, "/d/", "/s/x") && !SweptAway(t.files, src, "/d/", "/s/x") && CopyKey("/s/", "/d/", "/s/x") == "/d/x"
  {
    hide BaseName;
    var t := OrphanStore(now);
    assert TrimSlash("/d/") == "/d" && "/d" + "/" == "/d/" && "/d" !in t.files && "/d/" !in t.files;
    assert "/s/x"[..3] == "/s/" && "/s/x"[3..] == "x" && "/d/" + "x" == "/d/x";
  }

  lemma OrphanSource(now: int, c: Copying)
    requires CopyReads(OrphanStore(now), 1, "/d", Some(NIL), c)
    ensures c.src == DirectoryRecord(1, "/s/") && c.dst == "/d/"
  {
    hide TransferPath, Clean, Split, Stored, BaseName, CopyGathers;
    CopyToD();
  }

  /** That copy puts the copy of /s/x over the user's file, whose ID then leads to the other. */
  lemma OrphanOverwritten(now: int, later: int, c: Copying, r: Db)
    requires CopyReads(OrphanStore(now), 1, "/d", Some(NIL), c)
    requires CopyWrites(OrphanStore(now), OrphanStore(now), later, c, r)
    ensures "/d/x" in r.files && r.files["/d/x"].meta.id !in OrphanStore(now).index && FindById(r, 3) == Some(r.files["/d/x"])
    ensures !Stays(OrphanStore(now), r, "/d/x")
  {
    hide TransferPath, Clean, Split, Stored, BaseName, Safe, Findable, CopyWrites, CopyGathers, Stays, Overwrites, SweptAway, CopyKey;
    var t := OrphanStore(now);
    OrphanStoreSafe(now);
    OrphanSource(now, c);
    OrphanInTheWay(now);
    PutOver(t, t, {1, 2}, {}, Some(NIL), later, c, r, "/s/x");
  }

  // ----- A file beside a directory of the same name -----

  /** Directories /s and /d and a file /d. */
  function TwinStore(): Db {
    var empty := Db(map[], map[], map[ChunkKey(1, 0) := [65]]);
    AddRecord(AddRecord(AddRecord(empty, DirectoryRecord(1, "/s/")), DirectoryRecord(2, "/d/")), FileRecord(3, "/d", 1))
  }

  lemma TwinStoreArises()
    ensures
      var t := TwinStore();
      NewValueRefusal(map[], "/s", true).None? &&
      NewValueRefusal(t.files - {"/d/", "/d"}, "/d", true).None? &&
      NewValueRefusal(t.files - {"/d"}, "/d", false).None?
  {
    hide NewValueRefusal, BaseName;
    var t := TwinStore();
    NewBelow(map[], "", "s", true);
    assert "" + "/" + "s" == "/s" && "/s" + "/" == "/s/" && "" + "/" + "d" == "/d" && "/d" + "/" == "/d/" && "/d" + "" == "/d";
    NewBelow(t.files - {"/d/", "/d"}, "", "d", true);
    NewBelow(t.files - {"/d"}, "", "d", false);
  }

  lemma TwinStoreSafe()
    ensures Safe(TwinStore(), {1}, {}) && Findable(TwinStore())
  {
    hide BaseName;
    var t := TwinStore();
    OneByte(t.chunks, 1);
    assert Whole(t.chunks, t.files["/d"]);
    forall k ensures Kept(t, {1}, {}, k) { }
    forall k ensures FindableAt(t, k) { }
    forall j, k ensures Separate(t.files, j, k) { }
  }

  /** A copy of /s may replace the file. */
  lemma TwinCopyAccepted()
    ensures TransferRefusal(TwinStore(), 1, "/d", Some(3)).None?
  {
    hide TransferPath, Clean, Split, Stored, BaseName;
    CopyToD();
    assert FindById(TwinStore(), 1) == Some(DirectoryRecord(1, "/s/"));
    assert TrimSlash("/d/") == "/d";
  }

  /** It also overwrites the directory, which it was not asked to replace. */
  lemma TwinOverwritten(later: int, c: Copying, r: Db)
    requires CopyReads(TwinStore(), 1, "/d", Some(3), c) && CopyWrites(TwinStore(), TwinStore(), later, c, r)
    ensures "/d/" in r.files && r.files["/d/"].meta.id !in TwinStore().index && !Stays(TwinStore(), r, "/d/")
  {
    hide TransferPath, Clean, Split, Stored, BaseName, Safe, Findable, CopyWrites, CopyGathers, Stays;
    var t := TwinStore();
    TwinStoreSafe();
    CopyToD();
    assert c.src == DirectoryRecord(1, "/s/") && c.dst == "/d/";
    assert TrimSlash("/d/") == "/d" && FindByPath(t.files, "/d") == Some(FileRecord(3, "/d", 1));
    assert "/s/"[3..] == "" && "/d/" + "" == "/d/";
    assert Overwrites(t.files, t.files, c.src, c.dst, "/s/");
    PutOver(t, t, {1}, {}, Some(3), later, c, r, "/s/");
  }

  // ----- A source in the subtree that is replaced -----

  /** /a/../d may be copied over /a. */
  lemma SweptCopyAccepted()
    ensures TransferRefusal(SweptStore(), 3, "/a", Some(1)).None?
  {
    hide TransferPath, Clean, Split, BaseName, Stored;
    UpAndBelow();
    var t := SweptStore();
    assert FindById(t, 3) == Some(DirectoryRecord(3, "/a/../d/"));
    assert TrimSlash("/a/") == "/a" && "/a" !in t.files && "/a" + "/" == "/a/";
  }

  /** That deletes the source and the file in it, of which there is no copy. */
  lemma SourceSwept(later: int, c: Copying, r: Db)
    requires CopyReads(SweptStore(), 3, "/a", Some(1), c) && CopyWrites(SweptStore(), SweptStore(), later, c, r)
    ensures !Stays(SweptStore(), r, "/a/../d/") && !Stays(SweptStore(), r, "/a/../d/f")
    ensures !CopyLosesNothing(SweptStore(), SweptStore(), c.src, c.dst, later, r)
  {
    hide TransferPath, Clean, Split, Stored, BaseName, Safe, Findable, CopyWrites, CheckReplacement, Cleared, GathersFrom, Stays,
      CopyLosesNothing, SweptAway, Replaced;
    var t := SweptStore();
    SweptStoreSafe();
    UpAndBelow();
    assert c.src == DirectoryRecord(3, "/a/../d/") && c.dst == "/a/";
    SweptAwayThere();
    SweptOfStage(t, {1}, {}, Some(1), later, c, r, "/a/../d/");
    SweptOfStage(t, {1}, {}, Some(1), later, c, r, "/a/../d/f");
    CopyLosesNothingIff(t, t, Some(1), later, c, r);
  }

  lemma SweptAwayThere()
    ensures
      var t := SweptStore();
      SweptAway(t.files, DirectoryRecord(3, "/a/../d/"), "/a/", "/a/../d/f") &&
      Replaced(t.files, "/a/", "/a/../d/") && Replaced(t.files, "/a/", "/a/../d/f")
  {
    hide BaseName;
    var t := SweptStore();
    assert "/a/../d/"[..3] == "/a/" && "/a/../d/f"[..3] == "/a/" && "/a/../d/f"[..8] == "/a/../d/";
    assert TrimSlash("/a/") == "/a" && "/a" !in t.files && "/a" + "/" == "/a/";
    assert FindByPath(t.files, "/a") == Some(DirectoryRecord(1, "/a/"));
  }

  lemma SweptOfStage(t: Db, published: set<BlobId>, lost: set<BlobId>, replace: Option<Id>, now: int, c: Copying, r: Db, k: string)
    requires KeysMatch(t.files) && c.src.meta.path in t.files && t.files[c.src.meta.path] == c.src
    requires Safe(t, published, lost) && Findable(t) && k in t.files && Replaced(t.files, c.dst, k)
    requires CopyGathers(t, replace, c) && CopyWrites(t, t, now, c, r)
    ensures !Stays(t, r, k)
  {
    hide BaseName, SameData, Safe, Findable, Erased, AddAll, Replaced, CopyKey, CopyRecord, Cleared, Stays, GathersFrom;
    var t1 :| Cleared(t, FindByPath(t.files, TrimSlash(c.dst)), c.victims, t1) && GathersFrom(t1.files, c.src, c.items);
    var b1 :| Erased(t, c.victims, b1) && r == AddAll(b1, c.copies, |c.copies|);
    OthersId(t, t, published, lost, now, c, t1, b1, r, k);
  }
}
