/** Backing up one storage directory and loading the archive into another. */
module Migration {
  import opened Paths
  import opened Disk
  import opened Journal
  import opened Recovery
  import opened RootDirectory
  import opened Namespace
  import opened Store
  import opened Effects
  import opened EntryMaps
  import opened IndexFiles
  import opened Archives
  import opened Backups
  import opened LocalStorages

  /** Whatever the archive of a store restores is the indexed part of its tree. */
  lemma BackupLoadsApart(items: seq<Item>, t: Tree, ids: Entries, paths: Lookup, metas: seq<Meta>, order: seq<Id>, other: Tree)
    requires Consistent(t, ids, paths) && IsBackup(items, t, ids, metas, order) && TopsApart(IndexedPart(t, ids), other)
    ensures LoadsApart(items, other)
  {
    hide Restores, Consistent, IsBackup, TopsApart;
    forall next, s | Restores(items, next, s) ensures TopsApart(s, other) {
      BackupLoadIsIdentity(items, t, ids, paths, metas, order, next, s);
    }
  }

  /** The index is no entry's node. */
  lemma IndexNotIndexed(pre: Tree, s: Tree, ids: Entries, metas: seq<Meta>)
    requires NamespaceOk(ids) && Exact(s, ids)
    ensures IndexedPart(WithIndex(Changed(pre, Replace(s)), metas), ids) == s
  {
    var u := WithIndex(Changed(pre, Replace(s)), metas);
    var x := IndexedPart(u, ids);
    assert Closed(s);
    assert INDEX !in s && !Indexes(ids, INDEX) by {
      forall id | id in ids ensures ids[id].path != INDEX { assert WellFormed(ids, id); UserPath(ids[id].path); }
    }
    forall p ensures (p in x <==> p in s) && (p in x ==> x[p] == s[p]) {
      assert HasParent(s, p);
      assert p in s && p != [] ==> Indexes(ids, p);
      if p != [] && Indexes(ids, p) {
        var id :| id in ids && ids[id].path == p;
        assert Matches(s, ids[id]);
      }
    }
    assert x.Keys == s.Keys;
  }

  /** The target ends up with the entries and the files of the source, or as it was. Nothing but a file name that
      starts or ends in white space stands in the way. */
  method Migrate(source: LocalStorage, target: LocalStorage)
    returns (r: Outcome, loaded: bool, committed: bool, ghost u: Tree)
    requires source != target && source.root != target.root && source.Valid() && target.Valid() && source.failed.None?
    requires target.root.atomicCleanup || TopsApart(IndexedPart(source.root.tree, source.ids), target.root.tree)
    modifies target, target.root
    ensures if loaded then target.Atomic(r, committed, u) else !committed && !r.Done? && unchanged(target) && unchanged(target.root)
    ensures committed ==>
      target.ids == source.ids && IndexedPart(u, target.ids) == IndexedPart(source.root.tree, source.ids) && AllPortable(source.ids)
    ensures source.root.reliable && target.root.reliable && old(target.failed).None? ==> (r.Done? <==> AllPortable(source.ids))
  {
    hide IsBackup, Restores, TopsApart, LoadsApart, AllPortable, Consistent, Recovers, Acceptable, Committed;
    loaded, committed, u := false, false, target.root.tree;
    ghost var t, ids, paths, pre := source.root.tree, source.ids, source.paths, target.root.tree;
    var items;
    ghost var metas, order;
    r, items, metas, order := source.Backup();
    if !r.Done? { return; }
    loaded := true;
    BackupLoadsIff(items, t, ids, paths, metas, order);
    if !target.root.atomicCleanup { BackupLoadsApart(items, t, ids, paths, metas, order, target.root.tree); }
    r, committed, u := target.Load(items);
    if committed {
      ghost var s :| Restores(items, target.ids, s) && Committed(pre, Replace(s), target.ids, u);
      BackupLoadIsIdentity(items, t, ids, paths, metas, order, target.ids, s);
      RestoredPart(items, pre, s, target.ids, u, t, ids, paths);
      assert Acceptable(items) by { SomethingRestored(items, target.ids, s); }
    }
  }

  lemma SomethingRestored(items: seq<Item>, ids: Entries, s: Tree)
    requires Restores(items, ids, s)
    ensures Acceptable(items)
  {
    hide Restores;
  }

  lemma RestoredPart(items: seq<Item>, pre: Tree, s: Tree, ids: Entries, u: Tree, t: Tree, before: Entries, paths: Lookup)
    requires Consistent(t, before, paths) && ids == before && Restores(items, ids, s) && Committed(pre, Replace(s), ids, u)
    ensures IndexedPart(u, ids) == s
  {
    hide Unpack, Completed;
    var metas :| Lists(metas, ids) && u == WithIndex(Changed(pre, Replace(s)), metas);
    IndexNotIndexed(pre, s, ids, metas);
  }

  // ----- A store whose archive is refused -----

  const SPACED: Path := [" a"]
  const SPACED_FILE: Meta := Meta(1, SPACED, false, " a", 0, 0, "")

  /** What Create makes of an empty store. */
  ghost function SpacedStore(): Tree {
    WithIndex(Changed(EMPTY, Put(SPACED, File(Data([])))), [SPACED_FILE])
  }

  /** Create accepts "/ a" on an empty store. The store that results is one that New opens, but no archive that
      Backup makes of it is accepted. */
  lemma BackupRefused(items: seq<Item>, metas: seq<Meta>, order: seq<Id>)
    ensures CheckNew(map[], "/ a", false).None? && StoragePath("/ a") == Some(SPACED)
    ensures Committed(EMPTY, Put(SPACED, File(Data([]))), map[1 := SPACED_FILE], SpacedStore())
    ensures Consistent(SpacedStore(), map[1 := SPACED_FILE], map[KeyOf(SPACED_FILE) := SPACED_FILE])
    ensures AllTrimmed(map[1 := SPACED_FILE])
    ensures IsBackup(items, SpacedStore(), map[1 := SPACED_FILE], metas, order) ==> !Acceptable(items)
  {
    hide StoragePath, Stored, StatPath, IsBackup, Acceptable, Consistent, AllPortable, Committed;
    SpacedAccepted();
    SpacedConsistent();
    assert !EndsInSpace(" a");
    SpacedNotPortable();
    if IsBackup(items, SpacedStore(), map[1 := SPACED_FILE], metas, order) {
      BackupLoadsIff(items, SpacedStore(), map[1 := SPACED_FILE], map[KeyOf(SPACED_FILE) := SPACED_FILE], metas, order);
    }
  }

  lemma SpacedAccepted()
    ensures CheckNew(map[], "/ a", false).None? && StoragePath("/ a") == Some(SPACED)
  {
    hide StoragePath, StatPath, Stored;
    assert StoredName(" a") && !EndsInSpace(" a");
    FileStable(SPACED);
    assert Stored(SPACED, false) == "/ a" by { SpacedSpelt(); }
    NothingFound();
  }

  lemma SpacedSpelt()
    ensures Stored(SPACED, false) == "/ a"
  {
    assert Render(SPACED) == "/" + (" a" + Render([]));
  }

  lemma SpacedNotPortable()
    ensures !AllPortable(map[1 := SPACED_FILE])
  {
    assert !Portable(map[1 := SPACED_FILE][1]);
  }

  lemma SpacedConsistent()
    ensures Consistent(SpacedStore(), map[1 := SPACED_FILE], map[KeyOf(SPACED_FILE) := SPACED_FILE])
    ensures Committed(EMPTY, Put(SPACED, File(Data([]))), map[1 := SPACED_FILE], SpacedStore())
  {
    hide Consistent, Sound, EndsInSpace;
    var u, ids, paths := EMPTY[SPACED := File(Data([]))], map[1 := SPACED_FILE], map[KeyOf(SPACED_FILE) := SPACED_FILE];
    NothingSound();
    assert StoredName(" a") && Parent(SPACED) == [];
    PutSound(EMPTY, map[], SPACED_FILE, File(Data([])));
    assert map[][1 := SPACED_FILE] == ids;
    assert SameEntries(ids, paths) by {
      forall id | id in ids ensures Listed(ids, paths, id) { }
      forall k | k in paths ensures Backed(ids, paths, k) { }
    }
    assert [SPACED_FILE][0] == SPACED_FILE;
    assert Lists([SPACED_FILE], ids) by {
      forall id | id in ids ensures Recorded([SPACED_FILE], id) { }
    }
    assert u == Changed(EMPTY, Put(SPACED, File(Data([]))));
    WithIndexConsistent(u, ids, paths, [SPACED_FILE]);
  }

  lemma NothingSound()
    ensures Sound(EMPTY, map[])
  {
    EmptyClosed();
    forall p ensures NamedAt(EMPTY, p) { }
  }
}
