/** Why the drivers refuse a request: each error has its own cause in the namespace. */
module Refusals {
  import opened Paths
  import opened Disk
  import opened Namespace
  import opened RootDirectory
  import opened EntryMaps
  import opened BadgerState
  import opened BadgerTransactions
  import opened BadgerDriver
  import opened Refinement
  import opened Additions
  import opened Differences

  ghost predicate FileAt(ids: Entries, p: Path) {
    exists f :: f in ids && ids[f].path == p && !ids[f].isDir
  }

  // ----- LocalStorage -----

  /** The parent of a path is missing, or a file, or an indexed directory. */
  lemma ParentErrors(ids: Entries, paths: Lookup, p: Path)
    requires NamespaceOk(ids) && SameEntries(ids, paths) && StoredPath(p) && p != []
    ensures CheckParent(paths, p) == Some(NotFound) <==> Parent(p) != [] && Vacant(ids, Parent(p))
    ensures CheckParent(paths, p) == Some(NotDir) <==> FileAt(ids, Parent(p))
    ensures CheckParent(paths, p) == None <==> HasDirectory(ids, Parent(p))
    ensures CheckParent(paths, p) in {None, Some(NotFound), Some(NotDir)}
  {
    hide StoragePath, Stored, Find;
    CheckParentDecides(ids, paths, p);
    var up := Parent(p);
    if up == [] {
      forall id | id in ids ensures ids[id].path != [] { assert WellFormed(ids, id); }
    } else {
      DirectoryStable(up);
      FindExact(ids, paths, up);
      if Find(paths, up).Some? {
        forall id | id in ids && ids[id].path == up ensures id == Find(paths, up).value.id {
          assert Unique(ids, id, Find(paths, up).value.id);
        }
      }
    }
  }

  /** Create and Mkdir: the argument is no path or the root, what is looked up is there, or the parent is missing or a
      file. */
  lemma LocalNewErrors(ids: Entries, paths: Lookup, value: string, isDir: bool)
    requires NamespaceOk(ids) && SameEntries(ids, paths)
    ensures CheckNew(paths, value, isDir) == Some(InvalidPath) <==> StoragePath(value) in {None, Some([])}
    ensures StoragePath(value) !in {None, Some([])} ==>
      var p, e := StoragePath(value).value, CheckNew(paths, value, isDir);
      (e == Some(AlreadyExists) <==> !Unfound(ids, Stored(p, isDir)))
      && (e == Some(NotFound) <==> Unfound(ids, Stored(p, isDir)) && Parent(p) != [] && Vacant(ids, Parent(p)))
      && (e == Some(NotDir) <==> Unfound(ids, Stored(p, isDir)) && FileAt(ids, Parent(p)))
  {
    hide StoragePath, Stored, Find, CheckParent, StoredPath, FileAt, HasDirectory;
    StoragePathYieldsStoredNames(value);
    if StoragePath(value) !in {None, Some([])} {
      var p := StoragePath(value).value;
      ParentErrors(ids, paths, p);
      if StoragePath(Stored(p, isDir)).Some? { FindExact(ids, paths, StoragePath(Stored(p, isDir)).value); }
    }
  }

  /** Move and Copy: the destination is refused, its parent is missing or a file, or the entry there is not the
      expected one. */
  lemma LocalTransferErrors(ids: Entries, paths: Lookup, id: Id, value: string, replace: Option<Id>)
    requires NamespaceOk(ids) && SameEntries(ids, paths) && id in ids
    ensures
      var d, r := LocalDestination(ids[id].path, ids[id].isDir, value), CheckTransfer(paths, ids[id], value, replace);
      (r == Refused(InvalidPath) <==> d.None?) &&
      (d.Some? ==>
        d.value != [] && (r == Refused(NotFound) <==> Parent(d.value) != [] && Vacant(ids, Parent(d.value)))
        && (r == Refused(NotDir) <==> FileAt(ids, Parent(d.value)))
        && (r == Refused(AlreadyExists) <==> HasDirectory(ids, Parent(d.value)) && !Meets(ids, d.value, replace)))
  {
    hide StoragePath, TransferPath, Stored, Find, CheckParent, StoredPath, FileAt, HasDirectory, Meets, CheckReplacement;
    var src := ids[id];
    NamespaceSensible(ids);
    if StoragePath(value).Some? {
      var p := StoragePath(value).value;
      StoragePathYieldsStoredNames(value);
      StoredIsClean(src.path);
      TransferKeepsStoredNames(src.path, src.isDir, p);
      var d := TransferPath(src.path, src.isDir, Stored(p, false));
      if d.Some? {
        ParentErrors(ids, paths, d.value);
        ReplacementIff(ids, paths, d.value, replace);
      }
    }
  }

  // ----- Badger -----

  /** An ID leads to a record exactly if there is such an entry. */
  lemma FoundIff(t: Db, ids: Entries, id: Id)
    requires NamespaceOk(ids) && Spelt(t, ids)
    ensures FindById(t, id).Some? <==> id in ids
    ensures FindById(t, id).Some? ==> FindById(t, id).value.meta.isDir == ids[id].isDir
  {
    hide Stored;
    if id in ids { SourceRecord(t, ids, id); }
  }

  /** Create and Mkdir: the argument makes no key, no directory has the parent's key, or the key is taken. That the
      parent is a file is never the answer. */
  lemma BadgerNewErrors(t: Db, ids: Entries, value: string, isDir: bool)
    requires NamespaceOk(ids) && Spelt(t, ids)
    ensures NewValueRefusal(t.files, value, isDir) == Some(InvalidPath) <==> NewKey(value, isDir).None?
    ensures NewKey(value, isDir).Some? ==>
      var k, e := NewKey(value, isDir).value, NewValueRefusal(t.files, value, isDir);
      (e == Some(NotFound) <==> ParentString(k) != "/" && !TakenByDirectory(ids, ParentString(k)))
      && (e == Some(AlreadyExists) <==> (ParentString(k) == "/" || TakenByDirectory(ids, ParentString(k))) && Taken(ids, k))
      && e in {None, Some(NotFound), Some(AlreadyExists)}
  {
    hide NewKey, TrimSlash, UpToSlash, FindByPath, Taken, TakenByDirectory, Spelt;
    if NewKey(value, isDir).Some? {
      var k := NewKey(value, isDir).value;
      EndsAtSlash(TrimSlash(k));
      TakenIff(t, ids, k);
      if ParentString(k) != "/" { FindsDirectory(t, ids, ParentString(k)); }
    }
  }

  /** Move and Copy: no such entry, a destination that is refused, or not the expected entry there. */
  lemma BadgerTransferErrors(t: Db, ids: Entries, paths: Lookup, id: Id, value: string, replace: Option<Id>, copy: bool)
    requires NamespaceOk(ids) && SameEntries(ids, paths) && Spelt(t, ids)
    ensures TransferRefusal(t, id, BadgerArgument(value, copy), replace) == Some(NotFound) <==> id !in ids
    ensures id in ids ==>
      var d := BadgerDestination(ids[id].path, ids[id].isDir, value, copy);
      var e := TransferRefusal(t, id, BadgerArgument(value, copy), replace);
      (e == Some(InvalidPath) <==> d.None?) && (e == Some(AlreadyExists) <==> d.Some? && !Meets(ids, d.value, replace))
  {
    hide TransferPath, Stored, Clean, Split, TrimSpace, TrimSlash, Rooted, FindByPath, FindById, Find, StoredPath, Spelt, CleanPath,
      CheckReplacement, Meets;
    FoundIff(t, ids, id);
    if id in ids {
      NamespaceSensible(ids);
      SourceRecord(t, ids, id);
      var src := ids[id];
      StoredIsClean(src.path);
      StoredCleans(src.path, src.isDir);
      BadgerTransferIff(t, ids, paths, id, value, replace, copy);
    }
  }

  /** Write: no such entry, or a directory. */
  lemma BadgerWriteErrors(t: Db, ids: Entries, id: Id)
    requires NamespaceOk(ids) && Spelt(t, ids)
    ensures BadgerVFS.WriteRefusal(t, id) == Some(NotFound) <==> id !in ids
    ensures BadgerVFS.WriteRefusal(t, id) == Some(AlreadyExists) <==> id in ids && ids[id].isDir
    ensures BadgerVFS.WriteRefusal(t, id) == None <==> id in ids && !ids[id].isDir
  {
    hide FindById, Spelt, Stored;
    FoundIff(t, ids, id);
  }

  /** Below a file nothing can be made, but only LocalStorage says that it is the parent which is no directory. */
  lemma FileParentDivides(t: Db, ids: Entries, paths: Lookup, value: string, isDir: bool)
    requires NamespaceOk(ids) && SameEntries(ids, paths) && Spelt(t, ids) && SpelledAlike(value, isDir)
    requires FileAt(ids, Parent(StoragePath(value).value)) && Vacant(ids, StoragePath(value).value)
    ensures CheckNew(paths, value, isDir) == Some(NotDir)
    ensures NewValueRefusal(t.files, value, isDir) == Some(NotFound)
  {
    hide StoragePath, Stored, CheckNew, NewValueRefusal, NewKey, StoredPath, Spelt, NewRefusal;
    var p := StoragePath(value).value;
    StoragePathYieldsStoredNames(value);
    if isDir { DirectoryStable(p); } else { KeyEndsInNoSpace(value, p); FileStable(p); }
    LocalNewErrors(ids, paths, value, isDir);
    SpelledDecides(t, ids, paths, value, isDir, p);
    BadgerNewErrors(t, ids, value, isDir);
    BadgerRefuses(t, ids, value, isDir, p);
  }

  lemma BadgerRefuses(t: Db, ids: Entries, value: string, isDir: bool, p: Path)
    requires NamespaceOk(ids) && Spelt(t, ids) && StoredPath(p) && p != [] && FileAt(ids, Parent(p)) && Vacant(ids, p)
    requires NewKey(value, isDir) == Some(Stored(p, isDir))
    ensures !Taken(ids, Stored(p, isDir))
    ensures NewValueRefusal(t.files, value, isDir).Some?
  {
    hide Stored, NewKey, StoredPath, NewRefusal;
    var f :| f in ids && ids[f].path == Parent(p) && !ids[f].isDir;
    NewRefusalDecides(t, ids, p, isDir);
    FreeKey(t, ids, p, isDir);
    TakenIff(t, ids, Stored(p, isDir));
    assert WellFormed(ids, f);
    forall d | d in ids && ids[d].path == Parent(p) ensures d == f { assert Unique(ids, d, f); }
  }
}
