/** Which Badger moves lose something: in the spelling of a namespace none, but Create and Mkdir accept keys with
    which one does. */
module MoveLosses {
  import opened Paths
  import opened Disk
  import opened Namespace
  import opened RootDirectory
  import opened EntryMaps
  import opened IndexFiles
  import opened Restoring
  import opened KeyOrder
  import opened Blobs
  import opened BadgerState
  import opened BadgerTransactions
  import opened BadgerDriver
  import opened BadgerMoves
  import opened Refinement
  import opened Differences

  // ----- In the spelling of a namespace -----

  /** The source and the destination of a move that TransferPath accepts. */
  ghost predicate MayMove(ids: Entries, src: Meta, d: Path) {
    && src.id in ids && ids[src.id] == src && CleanPath(d) && d != []
    && !(d <= src.path) && !(src.isDir && src.path <= d)
  }

  /** What moves along is the subtree, and it moves to where the namespace wants it. */
  lemma Along(t: Db, ids: Entries, src: Meta, d: Path, x: Id)
    requires NamespaceOk(ids) && Spelt(t, ids) && MayMove(ids, src, d) && x in ids
    ensures KeyString(src) in t.files && KeyString(ids[x]) in t.files
    ensures
      var s, k := t.files[KeyString(src)], KeyString(ids[x]);
      (MovesAlong(s, k) <==> src.path <= ids[x].path) &&
      (src.path <= ids[x].path ==>
         Target(s, Stored(d, src.isDir), t.files[k]) == Stored(d + ids[x].path[|src.path|..], ids[x].isDir))
  {
    hide Stored, WithSlash, ChildPath, StoredPath, CleanPath;
    NamespaceSensible(ids);
    assert SpeltAt(t, ids, src.id) && SpeltAt(t, ids, x);
    Distinct(ids, src.id, x);
    StoredIsClean(src.path);
    StoredIsClean(ids[x].path);
    assert Unique(ids, src.id, x);
    EndsInSlash(src.path);
    if src.isDir { StoredPrefix(src.path, ids[x].path, ids[x].isDir); }
    InSubtreeIsBelow(ids, src.id, x);
    if src.path < ids[x].path {
      ChildPathIsRerooted(t.files[KeyString(ids[x])], src.path, d, ids[x].path, ids[x].isDir);
    } else {
      assert src.path <= ids[x].path ==> d + ids[x].path[|src.path|..] == d;
    }
  }

  /** What is replaced is what is at or below the destination. */
  lemma ReplacedIsBelow(t: Db, ids: Entries, d: Path, isDir: bool, x: Id)
    requires NamespaceOk(ids) && Spelt(t, ids) && CleanPath(d) && d != [] && x in ids
    ensures Replaced(t.files, Stored(d, isDir), KeyString(ids[x])) <==> d <= ids[x].path
  {
    hide Stored, TrimSlash, FindByPath, StoredPath, CleanPath, InTree;
    NamespaceSensible(ids);
    assert SpeltAt(t, ids, x);
    FindByPathFinds(t, ids, d, isDir);
    var found := FindByPath(t.files, TrimSlash(Stored(d, isDir)));
    if found.Some? {
      var y := found.value.meta.id;
      Distinct(ids, y, x);
      InTreeIsInSubtree(ids[y], ids[x], found.value, t.files[KeyString(ids[x])]);
      InSubtreeIsBelow(ids, y, x);
    } else if d < ids[x].path {
      AncestorIndexed(ids, x, d);
    }
  }

  lemma KeyOfEntry(t: Db, ids: Entries, k: string) returns (x: Id)
    requires Spelt(t, ids) && k in t.files
    ensures x in ids && KeyString(ids[x]) == k
  {
    hide Stored;
    assert KeySpelt(t, ids, k);
    x :| x in ids && KeyString(ids[x]) == k;
  }

  lemma Comparable(a: Path, b: Path, c: Path)
    requires a <= c && b <= c
    ensures a <= b || b <= a
  {
    assert a == c[..|a|] && b == c[..|b|];
  }

  lemma NamespaceNotSwept(t: Db, ids: Entries, src: Meta, d: Path, k: string)
    requires NamespaceOk(ids) && Spelt(t, ids) && MayMove(ids, src, d) && KeyString(src) in t.files
    ensures !SweptAt(t, t.files[KeyString(src)], Stored(d, src.isDir), k)
  {
    hide Stored, NamespaceOk, Spelt, StoredPath, Replaced, MovesAlong;
    if k in t.files {
      var x := KeyOfEntry(t, ids, k);
      Along(t, ids, src, d, x);
      ReplacedIsBelow(t, ids, d, src.isDir, x);
      InSubtreeIsBelow(ids, src.id, x);
      NamespaceSensible(ids);
      if d <= ids[x].path && src.path <= ids[x].path { Comparable(d, src.path, ids[x].path); }
    }
  }

  lemma NamespaceNoClash(t: Db, ids: Entries, src: Meta, d: Path, j: string, k: string)
    requires NamespaceOk(ids) && Spelt(t, ids) && MayMove(ids, src, d) && KeyString(src) in t.files
    ensures !ClashAt(t.files, t.files[KeyString(src)], Stored(d, src.isDir), j, k)
  {
    hide Stored, NamespaceOk, Spelt, Replaced, MovesAlong, Target, Before;
    if j in t.files && k in t.files {
      var a := KeyOfEntry(t, ids, j);
      var b := KeyOfEntry(t, ids, k);
      Along(t, ids, src, d, a);
      Along(t, ids, src, d, b);
      ReplacedIsBelow(t, ids, d, src.isDir, b);
      InSubtreeIsBelow(ids, src.id, b);
      NamespaceSensible(ids);
      if src.path <= ids[a].path {
        var p := d + ids[a].path[|src.path|..];
        var moved := ids[a].(path := p);
        CleanConcat(d, ids[a].path, |src.path|);
        KeyStringInjective(moved, ids[b]);
        assert d <= p;
        if src.path <= ids[b].path {
          var q := d + ids[b].path[|src.path|..];
          CleanConcat(d, ids[b].path, |src.path|);
          KeyStringInjective(moved, ids[b].(path := q));
          SameRest(d, ids[a].path, ids[b].path, |src.path|);
          SamePathSameId(ids, a, b);
          if d <= ids[b].path { Comparable(d, src.path, ids[b].path); }
        }
      }
    }
  }

  lemma CleanConcat(d: Path, p: Path, n: nat)
    requires CleanPath(d) && d != [] && StoredPath(p) && n <= |p|
    ensures CleanPath(d + p[n..]) && d + p[n..] != []
  {
    StoredIsClean(p);
    StoredConcatPath(d, p, n);
  }

  lemma SameRest(d: Path, p: Path, q: Path, n: nat)
    requires n <= |p| && n <= |q| && p[..n] == q[..n]
    ensures d + p[n..] == d + q[n..] ==> p == q
  {
    if d + p[n..] == d + q[n..] {
      assert p[n..] == (d + p[n..])[|d|..] == (d + q[n..])[|d|..] == q[n..];
      assert p == p[..n] + p[n..] && q == q[..n] + q[n..];
    }
  }

  /** On the spelling of a namespace every accepted move keeps every record, with its data and found by its ID,
      except those it replaces. */
  lemma NamespaceLosesNothing(t: Db, published: set<BlobId>, lost: set<BlobId>, ids: Entries, id: Id, value: string,
      replace: Option<Id>, now: int, m: Moving, r: Db)
    requires NamespaceOk(ids) && Spelt(t, ids) && Safe(t, published, lost) && id in ids
    requires Moves(t, id, value, replace, now, m, r)
    ensures NothingLost(t, m.src, m.dst, now, r)
  {
    hide Stored, TransferPath, Clean, Split, MovesTo, StoredPath, TrimSlash, FindByPath, TrimSpace, Survives, SweptAt, ClashAt,
      NamespaceOk, Safe, MayMove, Findable;
    var src := ids[id];
    assert SpeltAt(t, ids, id);
    SourceRecord(t, ids, id);
    SourceOfMove(t, id, now, m, r);
    var d := TransferPath(Clean(Split(m.src.meta.path)), m.src.meta.isDir, value).value;
    AcceptedMayMove(ids, id, value, d);
    forall k ensures !SweptAt(t, m.src, m.dst, k) { NamespaceNotSwept(t, ids, src, d, k); }
    forall j, k ensures !ClashAt(t.files, m.src, m.dst, j, k) { NamespaceNoClash(t, ids, src, d, j, k); }
    NamespaceFindable(t, ids);
    AcceptedIsOutside(m.src, value);
    MoveLosesNothingIff(t, published, lost, id, now, m, r);
  }

  lemma AcceptedMayMove(ids: Entries, id: Id, value: string, d: Path)
    requires NamespaceOk(ids) && id in ids
    requires TransferPath(Clean(Split(KeyString(ids[id]))), ids[id].isDir, value) == Some(d)
    ensures MayMove(ids, ids[id], d)
  {
    hide Stored, TransferPath, Clean, Split, TrimSpace;
    NamespaceSensible(ids);
    StoredIsClean(ids[id].path);
    StoredCleans(ids[id].path, ids[id].isDir);
    TransferPathDecidesAncestry(ids[id].path, ids[id].isDir, value);
    CleanOfSplit(TrimSpace(value));
  }

  lemma SourceOfMove(t: Db, id: Id, now: int, m: Moving, r: Db)
    requires MovesTo(t, id, now, m, r)
    ensures FindById(t, id) == Some(m.src)
  {
    hide MovesVia;
  }

  lemma NamespaceFindable(t: Db, ids: Entries)
    requires Spelt(t, ids) && NamespaceOk(ids)
    ensures Findable(t)
  {
    hide Stored;
    forall k ensures FindableAt(t, k) {
      if k in t.files {
        var x := KeyOfEntry(t, ids, k);
        assert SpeltAt(t, ids, x) && WellFormed(ids, x);
      }
    }
  }

  // ----- With the keys that Create and Mkdir accept -----

  function DirectoryRecord(id: Id, key: string): Record {
    Record.Record(Row(id, key, true, BaseName(key), 0, 0, ""), NIL)
  }

  /** A file of one byte. */
  function FileRecord(id: Id, key: string, blob: BlobId): Record {
    Record.Record(Row(id, key, false, BaseName(key), 1, 0, ""), blob)
  }

  /** Create and Mkdir accept a name of any kind, "." and ".." too, below a directory key of that spelling. */
  lemma NewBelow(files: Files, up: string, name: string, isDir: bool)
    requires name != "" && '/' !in name && !IsSpace(name[|name| - 1])
    requires up == "" || (up[0] == '/' && up + "/" in files && files[up + "/"].meta.isDir)
    requires up + "/" + name + (if isDir then "/" else "") !in files
    ensures NewValueRefusal(files, up + "/" + name, isDir).None?
  {
    hide NewKey, ParentString;
    KeyBelow(up, name, isDir);
    if up == "" { assert up + "/" == "/"; }
  }

  lemma KeyBelow(up: string, name: string, isDir: bool)
    requires name != "" && '/' !in name && !IsSpace(name[|name| - 1]) && (up == "" || up[0] == '/')
    ensures
      var key := up + "/" + name + (if isDir then "/" else "");
      NewKey(up + "/" + name, isDir) == Some(key) && ParentString(key) == up + "/"
  {
    hide TrimSpace, Split, Clean, IsSpace, UpToSlash, StoragePath;
    var value := up + "/" + name;
    SlashIsNoSpace();
    assert value[0] == '/' && value[|value| - 1] == name[|name| - 1] && value[|value| - 1] in name;
    PlainArgument(value);
    UpToName(up, name);
    assert value == up + ("/" + name);
    assert TrimSlash(if isDir then value + "/" else value) == value;
    assert value + "" == value;
  }

  /** A single byte under a blob is all of it. */
  lemma OneByte(chunks: Chunks, blob: BlobId)
    requires forall i: nat :: ChunkKey(blob, i) in chunks <==> i == 0
    requires chunks[ChunkKey(blob, 0)] == [65]
    ensures Complete(chunks, blob, [65])
  {
    assert ChunkCount(1) == 1 && ChunkAt([65], 0) == [65];
    forall i: nat
      ensures ChunkFits(chunks, blob, [65], i)
      ensures i < 1 ==> ChunkThere(chunks, blob, i)
    {
    }
  }

  /** /a/, /a/../, /a/../d/ and a file in it. */
  function SweptStore(): Db {
    var empty := Db(map[], map[], map[ChunkKey(1, 0) := [65]]);
    AddRecord(AddRecord(AddRecord(AddRecord(empty, DirectoryRecord(1, "/a/")), DirectoryRecord(2, "/a/../")),
      DirectoryRecord(3, "/a/../d/")), FileRecord(4, "/a/../d/f", 1))
  }

  /** Mkdir and Create accept these keys one after the other. */
  lemma SweptStoreArises()
    ensures
      var t := SweptStore();
      NewValueRefusal(map[], "/a", true).None? &&
      NewValueRefusal(t.files - {"/a/../", "/a/../d/", "/a/../d/f"}, "/a/..", true).None? &&
      NewValueRefusal(t.files - {"/a/../d/", "/a/../d/f"}, "/a/../d", true).None? &&
      NewValueRefusal(t.files - {"/a/../d/f"}, "/a/../d/f", false).None?
  {
    hide NewValueRefusal, BaseName;
    var t := SweptStore();
    NewBelow(map[], "", "a", true);
    assert "" + "/" + "a" == "/a" && "/a" + "/" == "/a/" && "/a" + "/" + ".." == "/a/.." && "/a/.." + "/" == "/a/../";
    assert "/a/.." + "/" + "d" == "/a/../d" && "/a/../d" + "/" == "/a/../d/" && "/a/../d" + "/" + "f" == "/a/../d/f";
    NewBelow(t.files - {"/a/../", "/a/../d/", "/a/../d/f"}, "/a", "..", true);
    NewBelow(t.files - {"/a/../d/", "/a/../d/f"}, "/a/..", "d", true);
    assert "/a/../d/f" + "" == "/a/../d/f";
    NewBelow(t.files - {"/a/../d/f"}, "/a/../d", "f", false);
  }

  lemma SweptStoreSafe()
    ensures Safe(SweptStore(), {1}, {}) && Findable(SweptStore())
  {
    hide BaseName;
    var t := SweptStore();
    OneByte(t.chunks, 1);
    assert Whole(t.chunks, t.files["/a/../d/f"]);
    forall k ensures Kept(t, {1}, {}, k) { }
    forall k ensures FindableAt(t, k) { }
    forall j, k ensures Separate(t.files, j, k) { }
  }

  /** For TransferPath the directory is /d, so that it may move to /a; but its key lies under /a/. */
  lemma SweptStoreAccepts()
    ensures TransferRefusal(SweptStore(), 3, "/a", None).None?
    ensures TransferPath(Clean(Split("/a/../d/")), true, "/a") == Some(["a"]) && Stored(["a"], true) == "/a/"
  {
    hide TransferPath, Clean, Split, BaseName, Stored;
    UpAndBelow();
    assert FindById(SweptStore(), 3) == Some(DirectoryRecord(3, "/a/../d/"));
  }

  lemma UpAndBelow()
    ensures TransferPath(Clean(Split("/a/../d/")), true, "/a") == Some(["a"]) && Stored(["a"], true) == "/a/"
  {
    hide Split, Clean, TrimSpace, Render, TransferPath, StoragePath;
    UpAndDown("a", "d");
    assert "/" + "a" == "/a" && "/" + "a" + "/" + ".." + "/" + "d" == "/a/../d";
    assert "/a/../d" + "/" == "/a/../d/";
    WithoutSlash("/a/../d/", "/a/../d");
    PlainArgument("/a");
    PlainName("a");
    TransferPathDecidesAncestry(["d"], true, "/a");
    assert CleanName("d") && CleanPath(["d"]) && ["a"][0] == "a" && ["d"][0] == "d";
    assert !(["a"] <= ["d"]) && !(["d"] <= ["a"]);
    assert "/a" + "/" == "/a/";
  }

  lemma SweptStoreSwept()
    ensures SweptAt(SweptStore(), DirectoryRecord(3, "/a/../d/"), "/a/", "/a/../d/f")
  {
    hide BaseName;
    var t, k := SweptStore(), "/a/../d/f";
    assert k[..3] == "/a/" && k[..8] == "/a/../d/";
    assert TrimSlash("/a/") == "/a" && "/a" !in t.files && "/a" + "/" == "/a/";
    assert FindByPath(t.files, "/a") == Some(DirectoryRecord(1, "/a/"));
  }

  lemma SwallowAccepted()
    ensures TransferRefusal(SweptStore(), 4, "/a", None).None?
    ensures TransferPath(Clean(Split("/a/../d/f")), false, "/a") == Some(["a"]) && Stored(["a"], false) == "/a"
  {
    hide TransferPath, Clean, Split, BaseName, Stored;
    UpAndBelowFile();
    assert FindById(SweptStore(), 4) == Some(FileRecord(4, "/a/../d/f", 1));
  }

  lemma UpAndBelowFile()
    ensures TransferPath(Clean(Split("/a/../d/f")), false, "/a") == Some(["a"]) && Stored(["a"], false) == "/a"
  {
    hide Split, Clean, TrimSpace, Render, TransferPath, StoragePath;
    UpAndDown("a", "d");
    assert "/" + "a" == "/a" && "/" + "a" + "/" + ".." + "/" + "d" == "/a/../d" && "/a/../d" + "/" + "f" == "/a/../d/f";
    SplitMore("/a/../d", "f");
    CleanNames(Split("/a/../d"), ["f"]);
    assert ["d"] + ["f"] == ["d", "f"];
    PlainArgument("/a");
    PlainName("a");
    TransferPathDecidesAncestry(["d", "f"], false, "/a");
    assert CleanName("d") && CleanName("f") && CleanPath(["d", "f"]) && ["a"][0] == "a" && ["d", "f"][0] == "d";
    assert !(["a"] <= ["d", "f"]);
    assert "/a" + "" == "/a";
  }

  /** Moving the file to /a leaves it without its byte. */
  lemma FileSwallowed(now: int, m: Moving, r: Db)
    requires Moves(SweptStore(), 4, "/a", None, now, m, r)
    ensures !Safe(r, {1}, {}) && Safe(r, {1}, {1})
  {
    hide TransferPath, Clean, Split, Stored, BaseName, Safe, MovesVia, CheckReplacement;
    SweptStoreSafe();
    SwallowAccepted();
    SweptStoreSwept();
    assert TrimSlash("/a") == TrimSlash("/a/") == "/a";
    assert m.src == FileRecord(4, "/a/../d/f", 1);
    MoveSafeIff(SweptStore(), {1}, {}, 4, now, m, r);
    assert {} + {m.src.blob} == {1};
  }

  /** Moving the directory to /a, which all checks let through, deletes the file in it. */
  lemma DirectorySwept(now: int, m: Moving, r: Db)
    requires Moves(SweptStore(), 3, "/a", None, now, m, r)
    ensures !Survives(SweptStore(), m.src, m.dst, now, r, "/a/../d/f")
    ensures !HasId(r.files, 4) && Absent(r.chunks, 1)
  {
    hide TransferPath, Clean, Split, Stored, BaseName, Safe, Survives, SweptAt, MovesVia, Findable, Replaced, Outside;
    var t, k := SweptStore(), "/a/../d/f";
    SweptStoreSafe();
    SweptStoreAccepts();
    SweptStoreSwept();
    AcceptedIsOutside(m.src, "/a");
    assert m.src == DirectoryRecord(3, "/a/../d/");
    var t1 :| MovesVia(t, now, m, t1, r);
    SweptLost(t, {1}, {}, now, m, t1, r, k);
    assert Replaced(t.files, m.dst, k) by { assert SweptAt(t, m.src, m.dst, k); SweptIsReplaced(t, m.src, m.dst, k); }
    ResultIds(t, {1}, {}, now, m, t1, r, 4);
    ErasedId(t, {1}, {}, now, m, t1, r, k);
    SceneResult(t, {1}, {}, now, m, t1, r);
    ReplacedIsAbsent(t, {1}, {}, now, m, t1, r, k);
  }

  lemma SweptIsReplaced(t: Db, src: Record, dst: string, k: string)
    requires SweptAt(t, src, dst, k)
    ensures Replaced(t.files, dst, k)
  {
    hide Replaced, MovesAlong;
  }

  lemma ReplacedIsAbsent(t: Db, published: set<BlobId>, lost: set<BlobId>, now: int, m: Moving, t1: Db, r: Db, k: string)
    requires Scene(t, published, lost, now, m, t1, r) && Replaced(t.files, m.dst, k) && !t.files[k].meta.isDir
    ensures Absent(r.chunks, t.files[k].blob)
  {
    hide BaseName, ChildPath, MoveAll, Before, InKeyOrder;
    SceneResult(t, published, lost, now, m, t1, r);
    VictimsAreReplaced(t, m.dst, m.victims, t1, k);
    ClearedSafe(t, published, lost, FindByPath(t.files, TrimSlash(m.dst)), m.victims, t1);
    VictimHasNoChunks(t, m.victims, t1, k);
  }

  /** /a/, /a/./ and a file x in either. */
  function ClashStore(): Db {
    var empty := Db(map[], map[], map[ChunkKey(1, 0) := [65], ChunkKey(2, 0) := [66]]);
    AddRecord(AddRecord(AddRecord(AddRecord(empty, DirectoryRecord(1, "/a/")), DirectoryRecord(2, "/a/./")),
      FileRecord(3, "/a/./x", 1)), FileRecord(4, "/a/x", 2))
  }

  lemma ClashStoreArises()
    ensures
      var t := ClashStore();
      NewValueRefusal(map[], "/a", true).None? &&
      NewValueRefusal(t.files - {"/a/./", "/a/./x", "/a/x"}, "/a/.", true).None? &&
      NewValueRefusal(t.files - {"/a/./x", "/a/x"}, "/a/./x", false).None? &&
      NewValueRefusal(t.files - {"/a/x"}, "/a/x", false).None?
  {
    hide NewValueRefusal, BaseName;
    var t := ClashStore();
    NewBelow(map[], "", "a", true);
    assert "" + "/" + "a" == "/a" && "/a" + "/" == "/a/" && "/a" + "/" + "." == "/a/." && "/a/." + "/" == "/a/./";
    assert "/a/." + "/" + "x" == "/a/./x" && "/a" + "/" + "x" == "/a/x" && "/a/./x" + "" == "/a/./x" && "/a/x" + "" == "/a/x";
    NewBelow(t.files - {"/a/./", "/a/./x", "/a/x"}, "/a", ".", true);
    NewBelow(t.files - {"/a/./x", "/a/x"}, "/a/.", "x", false);
    NewBelow(t.files - {"/a/x"}, "/a", "x", false);
  }

  lemma ClashStoreAccepts()
    ensures TransferRefusal(ClashStore(), 1, "/b", None).None?
    ensures TransferPath(Clean(Split("/a/")), true, "/b") == Some(["b"]) && Stored(["b"], true) == "/b/"
  {
    hide TransferPath, Clean, Split, BaseName, Stored;
    AsideAndAway();
    assert FindById(ClashStore(), 1) == Some(DirectoryRecord(1, "/a/"));
  }

  lemma AsideAndAway()
    ensures TransferPath(Clean(Split("/a/")), true, "/b") == Some(["b"]) && Stored(["b"], true) == "/b/"
  {
    hide Split, Clean, TrimSpace, Render, TransferPath, StoragePath;
    CleanOfOne("a");
    CleanOfOne("b");
    assert "/a" + "/" == "/a/";
    WithoutSlash("/a/", "/a");
    PlainArgument("/b");
    PlainName("b");
    TransferPathDecidesAncestry(["a"], true, "/b");
    assert ["a"][0] == "a" && ["b"][0] == "b" && !(["a"] <= ["b"]) && !(["b"] <= ["a"]);
    assert "/" + "a" == "/a" && "/" + "b" == "/b" && "/b" + "/" == "/b/";
  }

  lemma CleanOfOne(name: string)
    requires CleanName(name)
    ensures Clean(Split("/" + name)) == [name]
  {
    hide Split, Clean;
    SplitTwo(name);
    CleanKeeps([name]);
    CleanLeading([name]);
    assert [""] + [name] == ["", name];
  }

  /** Joining and cleaning the path puts both files under one key. */
  lemma ClashTargets()
    ensures ChildPath(FileRecord(3, "/a/./x", 1), "/a/", "/b/") == "/b/x" == ChildPath(FileRecord(4, "/a/x", 2), "/a/", "/b/")
  {
    hide Split, Clean, Stored, BaseName;
    assert "/a/./x"[..3] == "/a/" && "/a/./x"[3..] == "./x" && "/a/x"[..3] == "/a/" && "/a/x"[3..] == "x";
    SplitTwo("b");
    SplitMore("/b", "");
    SplitMore("/b" + "/" + "", ".");
    SplitMore("/b" + "/" + "" + "/" + ".", "x");
    SplitMore("/b" + "/" + "", "x");
    assert "/" + "b" == "/b" && "/b" + "/" + "" == "/b/";
    assert "/b/" + "/" + "." + "/" + "x" == "/b/" + "/" + "./x";
    assert Split("/b/" + "/" + "./x") == ["", "b", "", ".", "x"] && Split("/b/" + "/" + "x") == ["", "b", "", "x"];
    JoinedClean();
    StoredTwo("b", "x");
  }

  lemma JoinedClean()
    ensures Clean(["", "b", "", ".", "x"]) == ["b", "x"] == Clean(["", "b", "", "x"])
  {
    hide Clean;
    CleanKeeps(["b"]);
    CleanLeading(["b"]);
    CleanTrailing(["", "b"]);
    assert [""] + ["b"] == ["", "b"] && ["", "b"] + [""] == ["", "b", ""];
    CleanDot(["", "b", ""]);
    assert ["", "b", ""] + ["."] == ["", "b", "", "."];
    CleanNames(["", "b", ""], ["x"]);
    CleanNames(["", "b", "", "."], ["x"]);
    assert ["", "b", ""] + ["x"] == ["", "b", "", "x"] && ["", "b", "", "."] + ["x"] == ["", "b", "", ".", "x"];
    assert ["b"] + ["x"] == ["b", "x"];
  }

  lemma CleanDot(parts: seq<string>)
    ensures Clean(parts + ["."]) == Clean(parts)
  {
    assert (parts + ["."])[..|parts|] == parts;
  }

  lemma StoredTwo(a: string, b: string)
    ensures Stored([a, b], false) == "/" + a + "/" + b
  {
    RenderOne(b);
    assert [a, b][1..] == [b];
    assert Render([a, b]) == "/" + (a + Render([b]));
  }

  /** Moving the directory to /b, which all checks let through, loses one of the files. */
  lemma FilesClash(now: int, m: Moving, r: Db)
    requires Moves(ClashStore(), 1, "/b", None, now, m, r)
    ensures !Survives(ClashStore(), m.src, m.dst, now, r, "/a/./x") || !Survives(ClashStore(), m.src, m.dst, now, r, "/a/x")
  {
    hide TransferPath, Clean, Split, Stored, BaseName, MovesVia, Replaced, ChildPath, CheckReplacement, FindByPath;
    ClashStoreAccepts();
    ClashTargets();
    assert m.src == DirectoryRecord(1, "/a/") && m.dst == "/b/";
    assert "/a/./x"[..3] == "/a/" && "/a/x"[..3] == "/a/";
  }
}
