/** Opening a storage directory after a shutdown or a crash. */
module Opening {
  import opened Paths
  import opened Disk
  import opened Journal
  import opened Recovery
  import opened RootDirectory
  import opened Namespace
  import opened Store
  import opened Effects
  import opened EntryMaps
  import opened IndexFiles
  import opened LocalStorages

  lemma LookupDetermined(ids: Entries, a: Lookup, b: Lookup)
    requires SameEntries(ids, a) && SameEntries(ids, b)
    ensures a == b
  {
    forall k | k in a ensures k in b && a[k] == b[k] {
      assert Backed(ids, a, k) && Listed(ids, b, a[k].id);
    }
    forall k | k in b ensures k in a {
      assert Backed(ids, b, k) && Listed(ids, a, b[k].id);
    }
  }

  /** checkIndexedFiles */
  method CheckIndexedFiles(root: Root, ids: Entries) returns (r: Outcome)
    ensures r.Done? ==> OnDisk(root.tree, ids)
    ensures root.reliable ==> r.Done? || r == Failed(Invalid)
    ensures r.Failed? ==> r.error == IO || (r.error == Invalid && !OnDisk(root.tree, ids))
  {
    var todo := ids.Keys;
    r := Done;
    while todo != {}
      invariant r.Done? && todo <= ids.Keys
      invariant forall id {:trigger Matches(root.tree, ids[id])} :: id in ids && id !in todo ==> Matches(root.tree, ids[id])
      decreases |todo|
    {
      var id :| id in todo;
      todo := todo - {id};
      var node;
      r, node := root.Lstat(ids[id].path);
      if !r.Done? { return; }
      if node.None? || !Fits(node.value, ids[id]) {
        assert !Matches(root.tree, ids[id]);
        return Failed(Invalid);
      }
    }
  }

  /** The file holds an index that can be read. */
  ghost predicate Indexes(tree: Tree, ids: Entries) {
    if INDEX in tree then tree[INDEX].File? && tree[INDEX].content.Index? && IndexOf(RowsOf(tree[INDEX].content.metas), ids)
    else ids == map[]
  }

  /** What New does after recovery, on any tree: it opens exactly the stores with a readable index, or none, whose
      every entry is on disk with its kind and size. */
  method ReadStore(ls: LocalStorage) returns (r: Outcome)
    modifies ls
    ensures ls.failed == old(ls.failed)
    ensures r.Done? ==> Indexes(ls.root.tree, ls.ids) && SameEntries(ls.ids, ls.paths) && OnDisk(ls.root.tree, ls.ids)
    ensures r == Failed(Invalid) ==> !exists ids :: Indexes(ls.root.tree, ids) && OnDisk(ls.root.tree, ids)
    ensures ls.root.reliable ==> r.Done? || r == Failed(Invalid)
  {
    hide RowOf, Decode;
    var node;
    r, node := ls.root.Lstat(INDEX);
    if !r.Done? { return; }
    ls.ids, ls.paths := map[], map[];
    if node.None? { return; }
    if !node.value.File? || !node.value.content.Index? { return Failed(Invalid); }
    ghost var rows := RowsOf(node.value.content.metas);
    var ok;
    ok, ls.ids, ls.paths := ReadIndex(RowsOf(node.value.content.metas));
    if !ok { return Failed(Invalid); }
    forall ids | IndexOf(rows, ids) ensures ids == ls.ids { SameIndex(rows, ids, ls.ids); }
    r := CheckIndexedFiles(ls.root, ls.ids);
  }

  /** New. After any run of mutations, failures and crashes, opening the directory recovers the one state
      recovery leads to and reads its namespace back, unless some file name ends in white space: then, and
      barring I/O errors only then, the index is refused. */
  method New(root: Root, ghost u: Tree, ghost namespace: Entries, ghost lookup: Lookup)
    returns (r: Outcome, ls: LocalStorage)
    requires Recovers(root.tree, u, root.atomicCleanup) && Consistent(u, namespace, lookup)
    modifies root
    ensures Recovers(root.tree, u, root.atomicCleanup)
    ensures fresh(ls) && ls.root == root
    ensures r.Done? ==> AllTrimmed(namespace) && root.tree == u && ls.ids == namespace && ls.paths == lookup && ls.failed.None?
    ensures r == Failed(Invalid) ==> !AllTrimmed(namespace)
    ensures root.reliable ==> r.Done? || r == Failed(Invalid)
  {
    hide EndsInSpace, RowOf, Decode;
    ls := new LocalStorage(root);
    r := root.RecoverTransaction(u);
    if !r.Done? { return; }
    r := ReadStore(ls);
    if INDEX in u {
      IndexReadsBack(u[INDEX].content.metas, namespace);
      assert AllTrimmed(namespace) ==> Indexes(u, namespace);
    } else {
      assert Indexes(u, namespace) && AllTrimmed(namespace);
    }
    if r.Done? { LookupDetermined(namespace, ls.paths, lookup); }
  }

  /** It happens: an empty store lets Create("/a /") through, and the file it stores, named "a ", is one
      that New refuses. */
  lemma CreateShutsOut(next: Entries, id: Id)
    ensures CheckNew(map[], "/a /", false).None? && StoragePath("/a /") == Some(["a "])
    ensures id in next && !next[id].isDir && next[id].path == ["a "] ==> !AllTrimmed(next)
  {
    hide StoragePath, Stored, StatPath, TrimSpace, Split;
    var p := ["a "];
    assert StoredName(p[0]) && EndsInSpace(p[0]);
    DirectoryStable(p);
    SpelledOut();
    assert forall v {:trigger StatPath(map[], v)} :: StatPath(map[], v).Missing? by { NothingFound(); }
    if id in next && !next[id].isDir && next[id].path == p {
      assert !Trimmed(next[id]);
    }
  }

  lemma SpelledOut()
    ensures Stored(["a "], true) == "/a /"
  {
    assert Render(["a "]) == "/" + ("a " + Render([]));
  }
}
