/** The two drivers side by side: from a common namespace, what LocalStorage does Badger does, and they arrive
    at a common namespace again. */
module Agreement {
  import opened Paths
  import opened Disk
  import opened Namespace
  import opened Recovery
  import opened RootDirectory
  import opened Store
  import opened Effects
  import opened EntryMaps
  import opened LocalStorages
  import opened BadgerState
  import opened BadgerTransactions
  import opened BadgerDriver
  import opened Refinement
  import opened Additions
  import opened Differences
  import opened Blobs

  /** A move that LocalStorage has checked is the same move in Badger, and loses nothing there. */
  lemma MovesAlike(t: Db, ids: Entries, paths: Lookup, id: Id, value: string, replace: Option<Id>, now: int,
      d: Destination, m: Moving, r: Db)
    requires NamespaceOk(ids) && SameEntries(ids, paths) && Spelt(t, ids) && id in ids && ReadAlike(value)
    requires TransferChecked(paths, ids[id], value, replace, d) && d.To?
    requires Moves(t, id, Rooted(TrimSpace(value)), replace, now, m, r)
    ensures d.dst != [] && Spelt(r, Relocated(Remaining(ids, d.target), ids[id], d.dst, now)) && !Swallowed(t.files, m.src, m.dst)
  {
    hide Spelt, TransferChecked, ReadAlike, MovesVia, TransferPath, Clean, Split, Stored, TrimSpace, Rooted, Swallowed, TrimSlash, FindByPath, Moves, BadgerAccepts;
    AcceptedByBoth(t, ids, paths, id, value, replace, d.dst, d.target);
    MoveTarget(t, ids, id, Rooted(TrimSpace(value)), replace, now, m, r, d.dst);
    MoveRefines(t, ids, id, Rooted(TrimSpace(value)), replace, now, m, r, d.dst, d.target);
    NamespaceNeverSwallows(t, ids, id, Rooted(TrimSpace(value)), replace, now, m, r, d.dst);
  }

  lemma MoveTarget(t: Db, ids: Entries, id: Id, value: string, replace: Option<Id>, now: int, m: Moving, r: Db, d: Path)
    requires NamespaceOk(ids) && Spelt(t, ids) && id in ids
    requires Moves(t, id, value, replace, now, m, r) && BadgerAccepts(t, id, value, replace, d)
    ensures m.dst == Stored(d, ids[id].isDir)
    ensures TransferPath(Clean(Split(m.src.meta.path)), m.src.meta.isDir, value) == Some(d)
  {
    hide TransferPath, Clean, Split, Stored, TrimSlash, FindByPath, Spelt, MovesVia;
    SourceRecord(t, ids, id);
  }

  lemma CopyTarget(t: Db, ids: Entries, id: Id, value: string, replace: Option<Id>, c: Copying, d: Path)
    requires NamespaceOk(ids) && Spelt(t, ids) && id in ids
    requires CopyReads(t, id, value, replace, c) && BadgerAccepts(t, id, value, replace, d)
    ensures c.dst == Stored(d, ids[id].isDir)
  {
    hide TransferPath, Clean, Split, Stored, TrimSlash, FindByPath, Spelt, Cleared, GathersFrom;
    SourceRecord(t, ids, id);
  }

  /** So is a copy, up to the fresh IDs. */
  lemma CopiesAlike(view: Db, t: Db, ids: Entries, paths: Lookup, id: Id, value: string, replace: Option<Id>, now: int,
      d: Destination, c: Copying, r: Db) returns (origin: map<Id, Id>)
    requires NamespaceOk(ids) && SameEntries(ids, paths) && Spelt(view, ids) && id in ids && ReadAlike(value)
    requires TransferChecked(paths, ids[id], value, replace, d) && d.To?
    requires t.files == view.files && t.index == view.index
    requires CopyReads(view, id, value, replace, c) && CopyWrites(view, t, now, c, r)
    ensures d.dst != [] && Numbers(Remaining(ids, d.target), ids[id], origin)
    ensures Spelt(r, Duplicated(Remaining(ids, d.target), ids[id], d.dst, now, origin))
  {
    hide Spelt, TransferChecked, ReadAlike, TransferPath, Clean, Split, Stored, TrimSlash, FindByPath, CopyWrites, Numbers, CopyReads, BadgerAccepts, Accepts;
    AcceptedByBoth(view, ids, paths, id, value, replace, d.dst, d.target);
    CopyTarget(view, ids, id, value, replace, c, d.dst);
    origin := CopyRefines(view, t, ids, id, value, replace, now, c, r, d.dst, d.target);
  }

  /** And so is a deletion. */
  lemma DeletionsAlike(t: Db, ids: Entries, id: Id, items: seq<Record>, r: Db)
    requires NamespaceOk(ids) && Spelt(t, ids) && id in ids && KeysMatch(t.files)
    requires FindById(t, id).Some? && Deletes(t.files, FindById(t, id).value, items) && Erased(t, items, r)
    ensures Spelt(r, Deleted(ids, ids[id]))
  {
    hide Spelt, Stored, Erased;
    SourceRecord(t, ids, id);
    SpeltThere(t, ids, id);
    var root := FindById(t, id).value;
    NamespaceSensible(ids);
    if root.meta.isDir { EndsInSlash(ids[id].path); }
    assert root.meta.isDir ==> WithSlash(root.meta.path) == root.meta.path;
    forall k | k in t.files ensures Includes(items, k) <==> InTree(root, k, t.files[k]) {
      IdOfKey(t, ids, k);
      assert t.files[k].meta.id == id ==> k == root.meta.path;
      if !root.meta.isDir { assert items[0] == root; }
    }
    EraseRefines(t, ids, id, items, r);
  }

  /** The drivers hold the same namespace, no call of theirs fails, and nobody else is at work. */
  ghost predicate Common(ls: LocalStorage, bv: BadgerVFS)
    reads ls, ls.root, bv
  {
    ls.Valid() && ls.failed.None? && ls.root.reliable && bv.Valid() && bv.lost == {} && bv.reliable && bv.alone && Spelt(bv.db, ls.ids)
  }

  /** A move that LocalStorage carries out Badger carries out, with the same result, unless the destination's
      last name ends in white space. */
  method MoveAlike(ls: LocalStorage, bv: BadgerVFS, id: Id, value: string, replace: Option<Id>, now: int) returns (r: Outcome)
    requires Common(ls, bv)
    modifies ls, ls.root, bv
    ensures r.Done? && ReadAlike(value) ==> Common(ls, bv)
    ensures !r.Done? ==> bv.db == old(bv.db)
  {
    hide Spelt, TransferChecked, ReadAlike, Moves, Relocated, Committed, Swallowed, TrimSpace, Rooted, Recovers, Reopenable;
    hide NamespaceOk, SameEntries, OnDisk, Indexed, Closed, Named, Safe, Generated, Step, TransferRefusal;
    ghost var ids, paths, t := ls.ids, ls.paths, bv.db;
    var d, committed;
    ghost var u, m;
    r, d, committed, u := ls.Move(id, value, replace, now);
    if !r.Done? { return; }
    if ReadAlike(value) { AcceptedByBoth(t, ids, paths, id, value, replace, d.dst, d.target); }
    var other;
    other, m := bv.Move(id, value, replace, now);
    if ReadAlike(value) { MovesAlike(t, ids, paths, id, value, replace, now, d, m, bv.db); }
  }

  /** The drivers have made one entry, each under an ID of its own. */
  ghost predicate MadeAlike(before: Entries, a: Meta, b: Id, after: Entries, t: Db) {
    && a.id !in before && b !in before && a.path != [] && a.name == Last(a.path)
    && after == before[a.id := a] && Spelt(t, before[b := a.(id := b)]) && NamespaceOk(before[b := a.(id := b)])
  }

  lemma MadesAlike(t: Db, ids: Entries, paths: Lookup, value: string, isDir: bool, a: Meta, now: int, r: Record)
    requires NamespaceOk(ids) && SameEntries(ids, paths) && Spelt(t, ids) && NamespaceOk(ids[a.id := a])
    requires SpelledAlike(value, isDir) && NewChecked(paths, value, isDir, None, a.path)
    requires a.id !in ids && a == Meta(a.id, a.path, isDir, a.name, a.size, now, "")
    ensures NewValueRefusal(t.files, value, isDir).None?
    ensures NewRecord(t, value, isDir, a.size, now, r) ==> MadeAlike(ids, a, r.meta.id, ids[a.id := a], AddRecord(t, r))
  {
    hide Spelt, NewKey, BaseName, NamespaceOk, SameEntries, StoragePath, Stored, CheckNew, NewValueRefusal;
    NewName(ids[a.id := a], a.id);
    StoragePathYieldsStoredNames(value);
    if !isDir { KeyEndsInNoSpace(value, a.path); }
    SpelledDecides(t, ids, paths, value, isDir, a.path);
    if NewRecord(t, value, isDir, a.size, now, r) {
      NewRefines(t, ids, value, a.path, isDir, a.size, now, r);
      assert NewEntry(r.meta.id, a.path, isDir, a.size, now) == a.(id := r.meta.id);
    }
  }

  lemma NewName(ids: Entries, id: Id)
    requires NamespaceOk(ids) && id in ids
    ensures ids[id].path != [] && ids[id].name == Last(ids[id].path)
  {
    assert WellFormed(ids, id);
  }

  /** A file that LocalStorage creates Badger creates, if the argument means the same key to both. */
  method CreateAlike(ls: LocalStorage, bv: BadgerVFS, value: string, content: seq<byte>, now: int)
    returns (r: Outcome, a: Meta, b: Id)
    requires Common(ls, bv) && |content| <= MAX_CHUNKS * CHUNK_SIZE
    modifies ls, ls.root, bv
    ensures r.Done? && SpelledAlike(value, false) ==>
      ls.Valid() && bv.Valid() && MadeAlike(old(ls.ids), a, b, ls.ids, bv.db) && a.size == |content| && a.modified == now && !a.isDir
    ensures !r.Done? ==> bv.db == old(bv.db)
  {
    hide Spelt, NewChecked, Committed, Recovers, Reopenable, SpelledAlike, MadeAlike, BaseName, NewKey, NewValueRefusal, Complete;
    hide NamespaceOk, SameEntries, OnDisk, Indexed, Closed, Named, Safe, Generated, Step;
    ghost var ids, paths, t := ls.ids, ls.paths, bv.db;
    b := NIL;
    var error, committed;
    ghost var u, before;
    r, error, a, committed, u := ls.Create(value, content, now);
    if !r.Done? { return; }
    var other, record;
    other, record, before := bv.Create(value, content, now);
    b := record.meta.id;
    if SpelledAlike(value, false) {
      OtherChunksSpelt(t, before, ids);
      MadesAlike(before, ids, paths, value, false, a, now, record);
    }
  }

  /** Likewise a directory. */
  method MkdirAlike(ls: LocalStorage, bv: BadgerVFS, value: string, now: int) returns (r: Outcome, a: Meta, b: Id)
    requires Common(ls, bv)
    modifies ls, ls.root, bv
    ensures r.Done? && SpelledAlike(value, true) ==>
      ls.Valid() && bv.Valid() && MadeAlike(old(ls.ids), a, b, ls.ids, bv.db) && a.size == 0 && a.modified == now && a.isDir
    ensures !r.Done? ==> bv.db == old(bv.db)
  {
    hide Spelt, NewChecked, Committed, Recovers, Reopenable, SpelledAlike, MadeAlike, BaseName, NewKey, NewValueRefusal;
    hide NamespaceOk, SameEntries, OnDisk, Indexed, Closed, Named, Safe, Generated, Step;
    ghost var ids, paths, t := ls.ids, ls.paths, bv.db;
    b := NIL;
    var error, committed;
    ghost var u;
    r, error, a, committed, u := ls.Mkdir(value, now);
    if !r.Done? { return; }
    var other, record;
    other, record := bv.Mkdir(value, now);
    b := record.meta.id;
    if SpelledAlike(value, true) { MadesAlike(t, ids, paths, value, true, a, now, record); }
  }

  /** What LocalStorage writes Badger writes, and the drivers stay on a common namespace. */
  method WriteAlike(ls: LocalStorage, bv: BadgerVFS, id: Id, content: seq<byte>, now: int) returns (r: Outcome)
    requires Common(ls, bv) && ls.root.atomicCleanup && |content| <= MAX_CHUNKS * CHUNK_SIZE
    modifies ls, ls.root, bv
    ensures r.Done? <==> id in old(ls.ids) && !old(ls.ids)[id].isDir
    ensures r.Done? ==> Common(ls, bv)
    ensures !r.Done? ==> bv.db == old(bv.db)
  {
    hide Spelt, Committed, Recovers, Reopenable, Complete, Absent;
    hide NamespaceOk, SameEntries, OnDisk, Indexed, Closed, Named, Safe, Generated, Step;
    ghost var ids, t := ls.ids, bv.db;
    var committed;
    ghost var u, before, swapped;
    r, committed, u := ls.Write(id, content, now);
    if !r.Done? { return; }
    var other, done, path;
    OtherChunksSpelt(t, t, ids);
    SourceRecord(t, ids, id);
    other, done, path, before, swapped := bv.Write(id, content, now);
    OtherChunksSpelt(t, before, ids);
    WriteRefines(before, ids, id, |content|, now, swapped);
    OtherChunksSpelt(swapped, bv.db, ls.ids);
  }

  /** So for a comment. */
  method CommentAlike(ls: LocalStorage, bv: BadgerVFS, id: Id, comments: string) returns (r: Outcome)
    requires Common(ls, bv)
    modifies ls, ls.root, bv
    ensures r.Done? <==> id in old(ls.ids)
    ensures r.Done? ==> Common(ls, bv)
    ensures !r.Done? ==> bv.db == old(bv.db)
  {
    hide Spelt, Committed, Recovers, Reopenable;
    hide NamespaceOk, SameEntries, OnDisk, Indexed, Closed, Named, Safe, Generated, Step;
    ghost var ids, t := ls.ids, bv.db;
    var committed;
    ghost var u;
    r, committed, u := ls.WriteComments(id, comments);
    if !r.Done? { return; }
    SourceRecord(t, ids, id);
    var other := bv.WriteComments(id, comments);
    CommentRefines(t, ids, id, comments, bv.db);
  }

  /** Two results of one copy: they differ in the fresh IDs alone. */
  ghost predicate SameCopy(before: Entries, id: Id, d: Destination, now: int, after: Entries, t: Db) {
    id in before && d.To? && d.dst != [] && exists a, b ::
      && Numbers(Remaining(before, d.target), before[id], a) && Numbers(Remaining(before, d.target), before[id], b)
      && after == Duplicated(Remaining(before, d.target), before[id], d.dst, now, a)
      && Spelt(t, Duplicated(Remaining(before, d.target), before[id], d.dst, now, b))
  }

  method CopyAlike(ls: LocalStorage, bv: BadgerVFS, id: Id, value: string, replace: Option<Id>, now: int)
    returns (r: Outcome, d: Destination)
    requires Common(ls, bv) && ls.root.atomicCleanup
    modifies ls, ls.root, bv
    ensures r.Done? ==> ls.Valid() && bv.Valid()
    ensures r.Done? && ReadAlike(value) ==> SameCopy(old(ls.ids), id, d, now, ls.ids, bv.db)
    ensures !r.Done? ==> bv.db == old(bv.db)
  {
    hide Spelt, TransferChecked, ReadAlike, Duplicated, Numbers, Committed, TrimSpace, Rooted, Recovers, Reopenable;
    hide NamespaceOk, SameEntries, OnDisk, Indexed, Closed, Named, Safe, Generated, TransferRefusal, CopyReads, CopyWrites;
    ghost var ids, paths, t := ls.ids, ls.paths, bv.db;
    var expected := if replace.None? then Some(NIL) else replace;
    var committed;
    ghost var u, view, before, c;
    r, d, committed, u := ls.Copy(id, value, replace, now);
    if !r.Done? { return; }
    if ReadAlike(value) { AcceptedByBoth(t, ids, paths, id, value, expected, d.dst, d.target); }
    var other;
    other, view, before, c := bv.Copy(id, value, replace, now);
    if ReadAlike(value) {
      ghost var origin := CopiesAlike(view, before, ids, paths, id, value, expected, now, d, c, bv.db);
    }
  }

  method DeleteAlike(ls: LocalStorage, bv: BadgerVFS, id: Id) returns (r: Outcome)
    requires Common(ls, bv)
    modifies ls, ls.root, bv
    ensures id in old(ls.ids) ==> r.Done? && Common(ls, bv) && id !in ls.ids
    ensures id !in old(ls.ids) ==> r == Failed(NotFound)
  {
    hide Spelt, Committed, Recovers, Reopenable, Deletes, Erased, Deleted;
    hide NamespaceOk, SameEntries, OnDisk, Indexed, Closed, Named, Safe, Generated, Step;
    ghost var ids, t, published, lost := ls.ids, bv.db, bv.published, bv.lost;
    var committed;
    ghost var u, items;
    r, committed, u := ls.Delete(id);
    if !r.Done? { return; }
    SourceRecord(t, ids, id);
    SafeKeysMatch(t, published, lost);
    var other;
    other, items := bv.Delete(id);
    DeletionsAlike(t, ids, id, items, bv.db);
  }
}
