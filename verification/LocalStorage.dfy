/** The LocalStorage driver: two maps in memory, a directory tree on disk, and mutations that are atomic
    under every schedule of failures and crashes. */
module LocalStorages {
  import opened Paths
  import opened Disk
  import opened Journal
  import opened Recovery
  import opened Plans
  import opened Swaps
  import opened RootDirectory
  import opened Transactions
  import opened Namespace
  import opened Store
  import opened Effects
  import opened StagingArea
  import opened EntryMaps
  import opened Fittings
  import opened IndexFiles
  import opened Archives
  import opened Restoring
  import opened Backups

  /** Recovery leads to a store whose index and files agree. */
  ghost predicate Reopenable(t: Tree, atomic: bool) {
    exists u, ids, paths :: Recovers(t, u, atomic) && Consistent(u, ids, paths)
  }

  lemma ConsistentRecovers(t: Tree, ids: Entries, paths: Lookup, atomic: bool)
    requires Consistent(t, ids, paths)
    ensures Recovers(t, t, atomic) && Reopenable(t, atomic)
  {
    forall q | q in t ensures !(TX <= q) {
      if TX <= q { NothingBelow(t, TX, q); }
    }
    assert User(t) == t;
    assert TX <= JOURNAL;
    assert Settled(t, t);
  }

  /** The entries after a mutation, and the tree with the index that lists them. */
  ghost predicate Committed(pre: Tree, c: Change, next: Entries, u: Tree) {
    exists metas :: Lists(metas, next) && u == WithIndex(Changed(pre, c), metas)
  }

  /** The trees have no name in common at the top. */
  predicate TopsApart(s: Tree, t: Tree) {
    forall p :: p in s && |p| == 1 ==> p !in t
  }

  /** What the archive holds has no name at the top in common with the tree. */
  ghost predicate LoadsApart(items: seq<Item>, t: Tree) {
    forall ids, s :: Restores(items, ids, s) ==> TopsApart(s, t)
  }

  lemma ThisLoadsApart(items: seq<Item>, t: Tree, ids: Entries, s: Tree)
    requires LoadsApart(items, t) && Restores(items, ids, s)
    ensures TopsApart(s, t)
  {
    hide Restores, TopsApart;
  }

  lemma StagedJournalable(t: Tree, pre: Tree, c: Change, moves: seq<Move>, atomic: bool)
    requires Staging(t, pre) && StagedFor(t, c, moves)
    requires c.Replace? ==> atomic || TopsApart(c.tree, pre)
    requires atomic || c.Replace? || moves == [] || moves[|moves| - 1].from != STAGED || moves[|moves| - 1].to !in t
    ensures Journalable(t, moves, atomic)
  {
    match c
    case Nothing =>
    case Put(p, _) => InstallJournalable(t, p in t, STAGED, p, atomic);
    case Relocate(src, dst) =>
      UserPath(src);
      assert TX <= STAGED;
      InstallJournalable(t, dst in t, src, dst, atomic);
    case Duplicate(_, dst) => InstallJournalable(t, dst in t, STAGED, dst, atomic);
    case Remove(p) => EvictionJournalable(t, p, atomic);
    case Replace(s) =>
      var n :| Swapping(t, s, moves, n);
      SwapStatic(t, s, moves, n);
      SwapSparesControl(t, s, moves, n);
      if !atomic {
        forall p | p in s && |p| == 1 ensures p !in t {
          assert Placed(moves, n, p);
          assert !(TX <= p);
        }
        SwapHarmless(t, s, moves, n);
      }
  }

  lemma EvictionJournalable(t: Tree, p: Path, atomic: bool)
    requires Closed(t) && IsDir(t, TX) && OLD !in t && p in t && StoredPath(p) && p != []
    ensures Journalable(t, [Move(p, OLD)], atomic)
  {
    var m := [Move(p, OLD)];
    ControlPaths();
    StagingPaths();
    UserPath(p);
    assert MoveReady(t, m[0]) && FreedBefore(t, m, 0) && Harmless(t, m[0]);
    assert Spares([Move(STAGED, OLD)][0], TX) && Spares([Move(STAGED, OLD)][0], JOURNAL);
    assert Spares([Move(STAGED, OLD)][0], TX_INDEX) && Spares([Move(STAGED, OLD)][0], INDEX);
  }

  class LocalStorage {
    const root: Root
    var ids: Entries
    var paths: Lookup
    var failed: Option<Error>

    ghost predicate Valid()
      reads this, root
    {
      if failed.None? then Consistent(root.tree, ids, paths) else Reopenable(root.tree, root.atomicCleanup)
    }

    /** A driver over a directory that has not been read yet. */
    constructor (root: Root)
      ensures this.root == root && ids == map[] && paths == map[] && failed == None
    {
      this.root := root;
      ids, paths, failed := map[], map[], None;
    }

    // ----- Updates of the maps -----

    method Apply(up: Update)
      requires NamespaceOk(ids) && SameEntries(ids, paths) && Updatable(ids, up)
      modifies this`ids, this`paths
      ensures Updates(old(ids), up, ids) && SameEntries(ids, paths)
    {
      match up
      case Record(m) =>
        PutEntry(m);
      case Forget(r) =>
        DropSubtree(r);
      case Carry(src, dst, copy, target, now) =>
        var items := set id | id in ids && InSubtree(src, ids[id]);
        if target.Some? { DropSubtree(target.value); }
        RemainingKeeps(old(ids), src, dst, copy, target, now);
        if copy {
          CopyItems(src, dst, now, items);
        } else {
          MoveItems(src, dst, now, items);
        }
      case Adopt(next, lookup) =>
        ids, paths := next, lookup;
    }

    method PutEntry(m: Meta)
      requires NamespaceOk(ids) && SameEntries(ids, paths) && Updatable(ids, Record(m))
      modifies this`ids, this`paths
      ensures ids == old(ids)[m.id := m] && SameEntries(ids, paths)
    {
      if m.id in ids {
        EntryReplaced(ids, paths, m);
        assert Listed(ids, paths, m.id);
        assert (paths - {KeyOf(m)})[KeyOf(m) := m] == paths[KeyOf(m) := m];
      } else {
        KeyHasEntry(ids, paths, KeyOf(m));
        EntryAdded(ids, paths, m);
      }
      ids := ids[m.id := m];
      paths := paths[KeyOf(m) := m];
    }

    method DropSubtree(r: Meta)
      requires SameEntries(ids, paths)
      modifies this`ids, this`paths
      ensures ids == Deleted(old(ids), r) && SameEntries(ids, paths)
    {
      var todo := ids.Keys;
      while todo != {}
        invariant todo <= ids.Keys <= old(ids).Keys && SameEntries(ids, paths)
        invariant forall id :: id in ids ==> ids[id] == old(ids)[id]
        invariant forall id :: id in old(ids) && id !in todo ==> (id in ids <==> !InSubtree(r, old(ids)[id]))
        decreases |todo|
      {
        var id :| id in todo;
        todo := todo - {id};
        if InSubtree(r, ids[id]) {
          EntryDropped(ids, paths, id);
          paths := paths - {KeyOf(ids[id])};
          ids := ids - {id};
        }
      }
    }

    method MoveItems(src: Meta, dst: Path, now: int, items: set<Id>)
      requires Carrying(ids, src, dst) && SameEntries(ids, paths) && Subtree(ids, src, items)
      modifies this`ids, this`paths
      ensures ids == Relocated(old(ids), src, dst, now) && SameEntries(ids, paths)
    {
      ghost var left := ids;
      var todo := items;
      assert items - todo == {};
      while todo != {}
        invariant todo <= items && Moving(left, src, dst, now, items, items - todo, ids, paths)
        decreases |todo|
      {
        var id :| id in todo;
        MoveStep(left, src, dst, now, items, items - todo, ids, paths, id);
        assert items - (todo - {id}) == items - todo + {id};
        todo := todo - {id};
        var m := Rerooted(ids[id], src.path, dst, now, id);
        paths := (paths - {KeyOf(ids[id])})[KeyOf(m) := m];
        ids := ids[id := m];
      }
      assert items - todo == items;
      MoveComplete(left, src, dst, now, items, ids, paths);
    }

    method CopyItems(src: Meta, dst: Path, now: int, items: set<Id>)
      requires Carrying(ids, src, dst) && SameEntries(ids, paths) && Subtree(ids, src, items)
      modifies this`ids, this`paths
      ensures SameEntries(ids, paths)
      ensures exists origin :: Numbers(old(ids), src, origin) && ids == Duplicated(old(ids), src, dst, now, origin)
    {
      ghost var left := ids;
      ghost var origin: map<Id, Id> := map[];
      var todo := items;
      NothingNumbered(left, src, dst, now);
      assert items - todo == {};
      while todo != {}
        invariant todo <= items && Duplicating(left, src, dst, now, items, items - todo, origin, ids, paths)
        decreases |todo|
      {
        var id :| id in todo;
        assert items - (todo - {id}) == items - todo + {id};
        origin := CopyItem(src, dst, now, id, left, items, items - todo, origin);
        todo := todo - {id};
      }
      assert items - todo == items;
      DuplicateComplete(left, src, dst, now, items, origin, ids, paths);
    }

    method CopyItem(src: Meta, dst: Path, now: int, id: Id,
        ghost left: Entries, ghost items: set<Id>, ghost done: set<Id>, ghost origin: map<Id, Id>)
      returns (ghost origin': map<Id, Id>)
      requires Duplicating(left, src, dst, now, items, done, origin, ids, paths) && id in items && id !in done
      modifies this`ids, this`paths
      ensures Duplicating(left, src, dst, now, items, done + {id}, origin', ids, paths)
    {
      var copyId := FreshId();
      DuplicateStep(left, src, dst, now, items, done, origin, ids, paths, id, copyId);
      origin' := origin[copyId := id];
      var m := Rerooted(ids[id], src.path, dst, now, copyId);
      ids := ids[copyId := m];
      paths := paths[KeyOf(m) := m];
    }

    /** uuid.NewV4, assumed to be fresh. */
    method FreshId() returns (id: Id)
      ensures id !in ids && id != NIL
    {
      ghost var n := Bound(ids.Keys + {NIL});
      assert n !in ids && n != NIL;
      id :| id !in ids && id != NIL;
    }

    /** The entries in some order, as json.Marshal is given them. */
    method Snapshot() returns (metas: seq<Meta>)
      requires SameEntries(ids, paths)
      ensures Lists(metas, ids)
    {
      assert forall id :: id in ids ==> Listed(ids, paths, id);
      metas := [];
      var todo := ids.Keys;
      while todo != {}
        invariant todo <= ids.Keys
        invariant forall i :: 0 <= i < |metas| ==> metas[i].id in ids && metas[i].id !in todo && ids[metas[i].id] == metas[i]
        invariant forall i, j :: 0 <= i < j < |metas| ==> metas[i].id != metas[j].id
        invariant forall id {:trigger Recorded(metas, id)} :: id in ids && id !in todo ==> Recorded(metas, id)
        decreases |todo|
      {
        var id :| id in todo;
        todo := todo - {id};
        ghost var before := metas;
        metas := metas + [ids[id]];
        forall x | x in ids && x !in todo ensures Recorded(metas, x) {
          if x == id {
            assert metas[|before|].id == id;
          } else {
            assert Recorded(before, x);
            var i :| 0 <= i < |before| && before[i].id == x;
            assert metas[i] == before[i];
          }
        }
      }
    }

    // ----- Transactions -----

    /** What every mutation guarantees, whichever system call fails and wherever the process dies: recovery
        leads to exactly one state u, the one before unless the index rename has happened; and a driver
        that goes on running holds that state, or has marked itself as failed. */
    twostate predicate Atomic(r: Outcome, committed: bool, u: Tree)
      reads this, root
    {
      && Reopenable(root.tree, root.atomicCleanup)
      && (!r.Crashed? ==> Valid())
      && (old(failed).None? ==> Recovers(root.tree, u, root.atomicCleanup))
      && (!committed ==> u == old(root.tree))
      && (!r.Crashed? && !committed ==> ids == old(ids) && paths == old(paths))
      && (!r.Crashed? && failed.None? ==> root.tree == u)
      && (r.Done? ==> committed && failed.None?)
      && (old(failed).Some? ==> r == Failed(old(failed).value) && !committed && root.tree == u && failed == old(failed))
    }

    /** transaction: stages, updates the maps, publishes and runs the journal, and then recovers, which
        either cleans up or rolls back. */
    method Transaction(s: Stage, up: Update) returns (r: Outcome, committed: bool, ghost u: Tree)
      requires failed.None? && Valid() && Prepared(root.tree, s)
      requires Fitting(root.tree, ids, s, up)
      requires root.atomicCleanup || !NeedsAtomicCleanup(s)
      modifies this, root
      ensures Atomic(r, committed, u)
      ensures EndsAs(old(root.tree), old(ids), ChangeOf(s), up, committed, ids, paths, u)
      ensures committed ==> Unoccupied(old(root.tree), s)
      ensures root.reliable && Unoccupied(old(root.tree), s) ==> r.Done?
      ensures r.Failed? ==>
        r.error == IO || r.error == Unfinished || (r.error == AlreadyExists && !Unoccupied(old(root.tree), s))
    {
      committed, u := false, root.tree;
      ConsistentRecovers(root.tree, ids, paths, root.atomicCleanup);
      r := Begin();
      if !r.Done? { return; }
      r, committed, u := AttemptAndRecover(s, up, u);
    }

    /** The rest of the transaction, once its directory has been created. */
    method AttemptAndRecover(s: Stage, up: Update, ghost pre: Tree) returns (r: Outcome, committed: bool, ghost u: Tree)
      requires failed.None? && Begun(root.tree, pre) && Consistent(pre, ids, paths) && Prepared(pre, s)
      requires Fitting(pre, ids, s, up) && (root.atomicCleanup || !NeedsAtomicCleanup(s))
      modifies this, root
      ensures Recovers(root.tree, u, root.atomicCleanup) && Reopenable(root.tree, root.atomicCleanup)
      ensures EndsAs(pre, old(ids), ChangeOf(s), up, committed, ids, paths, u)
      ensures committed ==> Unoccupied(pre, s)
      ensures !r.Crashed? ==> Valid()
      ensures !r.Crashed? && !committed ==> ids == old(ids) && paths == old(paths)
      ensures !r.Crashed? && failed.None? ==> root.tree == u
      ensures r.Done? ==> committed && failed.None?
      ensures root.reliable && Unoccupied(pre, s) ==> r.Done?
      ensures r.Failed? ==> r.error == IO || (r.error == AlreadyExists && !Unoccupied(pre, s))
    {
      var beforeIds, beforePaths := ids, paths;
      r, committed, u := Attempt(s, up, pre);
      var keptIds, keptPaths := if committed then ids else beforeIds, if committed then paths else beforePaths;
      EndsReopenable(pre, beforeIds, beforePaths, ChangeOf(s), up, committed, ids, paths, u, root.tree, root.atomicCleanup);
      if r.Crashed? { return; }
      r := Finish(r, keptIds, keptPaths, u);
    }

    method Begin() returns (r: Outcome)
      requires Closed(root.tree)
      modifies root
      ensures r.Done? ==> Begun(root.tree, old(root.tree))
      ensures !r.Done? ==> root.tree == old(root.tree)
      ensures root.reliable && TX !in old(root.tree) ==> r.Done?
      ensures r.Failed? ==> r.error == IO || r.error == Unfinished
      ensures root.reliable && TX in old(root.tree) ==> r == Failed(Unfinished)
    {
      r := root.Sync();
      if !r.Done? { return; }
      r := root.Mkdir(TX);
      if r.Failed? { r := Failed(Unfinished); }
    }

    /** The deferred function: the maps to keep are set, and recovery runs; its error is joined to the one
        there may already be. */
    method Finish(result: Outcome, keptIds: Entries, keptPaths: Lookup, ghost u: Tree) returns (r: Outcome)
      requires failed.None? && Recovers(root.tree, u, root.atomicCleanup) && Consistent(u, keptIds, keptPaths)
      requires !result.Crashed?
      modifies this, root
      ensures ids == keptIds && paths == keptPaths
      ensures Recovers(root.tree, u, root.atomicCleanup) && Reopenable(root.tree, root.atomicCleanup)
      ensures !r.Crashed? ==> Valid()
      ensures !r.Crashed? && failed.None? ==> root.tree == u
      ensures r.Done? ==> result.Done? && failed.None?
      ensures root.reliable ==> r == result && failed.None?
      ensures r.Failed? ==> r == result || r.error == IO
    {
      ids, paths := keptIds, keptPaths;
      r := root.RecoverTransaction(u);
      if r.Failed? { failed := Some(r.error); }
      if !r.Crashed? && result.Failed? { r := result; }
    }

    /** The part of the transaction before the deferred recovery. */
    method Attempt(s: Stage, up: Update, ghost pre: Tree) returns (r: Outcome, committed: bool, ghost u: Tree)
      requires Begun(root.tree, pre) && Consistent(pre, ids, paths) && Prepared(pre, s)
      requires Fitting(pre, ids, s, up) && (root.atomicCleanup || !NeedsAtomicCleanup(s))
      modifies this`ids, this`paths, root
      ensures Recovers(root.tree, u, root.atomicCleanup)
      ensures EndsAs(pre, old(ids), ChangeOf(s), up, committed, ids, paths, u)
      ensures committed ==> Unoccupied(pre, s)
      ensures r.Done? ==> committed
      ensures root.reliable && Unoccupied(pre, s) ==> r.Done?
      ensures r.Failed? ==> r.error == IO || (r.error == AlreadyExists && !Unoccupied(pre, s))
    {
      committed, u := false, pre;
      var moves;
      r, moves := RunStage(root, s, pre);
      StagingSettled(root.tree, pre);
      if !r.Done? { return; }
      StagedJournalable(root.tree, pre, ChangeOf(s), moves, root.atomicCleanup);
      r, committed, u := Publish(ChangeOf(s), up, moves, pre);
    }

    method Publish(ghost c: Change, up: Update, moves: seq<Move>, ghost pre: Tree)
      returns (r: Outcome, committed: bool, ghost u: Tree)
      requires Staging(root.tree, pre) && StagedFor(root.tree, c, moves)
      requires Journalable(root.tree, moves, root.atomicCleanup)
      requires NamespaceOk(ids) && SameEntries(ids, paths) && Suits(pre, ids, c, up)
      modifies this`ids, this`paths, root
      ensures Recovers(root.tree, u, root.atomicCleanup)
      ensures EndsAs(pre, old(ids), c, up, committed, ids, paths, u)
      ensures r.Done? ==> committed
      ensures root.reliable && (INDEX in pre ==> pre[INDEX].File?) ==> r.Done?
      ensures r.Failed? ==> r.error == IO
    {
      u := pre;
      ghost var before := ids;
      Apply(up);
      assert Sound(Changed(pre, c), ids);
      var metas := Snapshot();
      CommittedEnds(root.tree, pre, before, c, up, moves, metas, ids, paths);
      r, committed := PublishAndRun(root, moves, metas, pre);
      if committed { u := WithIndex(Changed(pre, c), metas); }
    }

    // ----- Mutations -----

    method Create(value: string, bytes: seq<byte>, now: int)
      returns (r: Outcome, error: Option<Error>, meta: Meta, committed: bool, ghost u: Tree)
      requires Valid()
      modifies this, root
      ensures Atomic(r, committed, u)
      ensures committed ==>
        && meta.id !in old(ids) && meta == Meta(meta.id, meta.path, false, meta.name, |bytes|, now, "")
        && ids == old(ids)[meta.id := meta] && meta.path !in old(root.tree)
        && Committed(old(root.tree), Put(meta.path, File(Data(bytes))), ids, u)
      ensures error.Some? ==> r == Failed(error.value) && !committed
      ensures root.reliable && error.None? && meta.path !in old(root.tree) ==> r.Done?
      ensures old(failed).None? ==> NewChecked(old(paths), value, false, error, meta.path)
    {
      hide NewChecked;
      committed, u, meta, error := false, root.tree, Meta(NIL, [], false, "", |bytes|, now, ""), failed;
      if failed.Some? { return Failed(failed.value), error, meta, false, u; }
      ConsistentRecovers(root.tree, ids, paths, root.atomicCleanup);
      error, meta := CheckAndName(value, meta);
      if error.Some? { return Failed(error.value), error, meta, false, u; }
      NewFits(root.tree, ids, NewFile(meta.path, bytes), meta, File(Data(bytes)));
      r, committed, u := Transaction(NewFile(meta.path, bytes), Record(meta));
    }

    method Mkdir(value: string, now: int)
      returns (r: Outcome, error: Option<Error>, meta: Meta, committed: bool, ghost u: Tree)
      requires Valid()
      modifies this, root
      ensures Atomic(r, committed, u)
      ensures committed ==>
        && meta.id !in old(ids) && meta == Meta(meta.id, meta.path, true, meta.name, 0, now, "")
        && ids == old(ids)[meta.id := meta] && meta.path !in old(root.tree)
        && Committed(old(root.tree), Put(meta.path, Dir), ids, u)
      ensures error.Some? ==> r == Failed(error.value) && !committed
      ensures root.reliable && error.None? && meta.path !in old(root.tree) ==> r.Done?
      ensures old(failed).None? ==> NewChecked(old(paths), value, true, error, meta.path)
    {
      hide NewChecked;
      committed, u, meta, error := false, root.tree, Meta(NIL, [], true, "", 0, now, ""), failed;
      if failed.Some? { return Failed(failed.value), error, meta, false, u; }
      ConsistentRecovers(root.tree, ids, paths, root.atomicCleanup);
      error, meta := CheckAndName(value, meta);
      if error.Some? { return Failed(error.value), error, meta, false, u; }
      NewFits(root.tree, ids, NewDirectory(meta.path), meta, Dir);
      r, committed, u := Transaction(NewDirectory(meta.path), Record(meta));
    }

    /** The checks of Create and Mkdir, and the new entry's path, name and ID. */
    method CheckAndName(value: string, blank: Meta) returns (error: Option<Error>, meta: Meta)
      requires failed.None? && Valid()
      ensures meta == blank.(id := meta.id, path := meta.path, name := meta.name)
      ensures error.None? ==>
        && meta.path != [] && StoredPath(meta.path)
        && meta.id !in ids && meta.id != NIL && meta.name == Last(meta.path) && HasDirectory(ids, Parent(meta.path))
      ensures NewChecked(paths, value, blank.isDir, error, meta.path)
    {
      hide StoragePath, Stored, StatPath, CheckParent, StoredPath;
      meta := blank;
      error := CheckNew(paths, value, blank.isDir);
      if error.None? {
        var p := StoragePath(value).value;
        CheckNewDecides(ids, paths, value, blank.isDir, p);
        var id := FreshId();
        meta := blank.(id := id, path := p, name := Last(p));
      }
    }

    /** Write. Rolling it back is safe only if the transaction directory is removed in one step. */
    method Write(id: Id, bytes: seq<byte>, now: int) returns (r: Outcome, committed: bool, ghost u: Tree)
      requires Valid() && root.atomicCleanup
      modifies this, root
      ensures Atomic(r, committed, u)
      ensures old(failed).None? && id !in old(ids) ==> r == Failed(NotFound)
      ensures old(failed).None? && id in old(ids) && old(ids)[id].isDir ==> r == Failed(NotDir)
      ensures root.reliable && old(failed).None? && id in old(ids) && !old(ids)[id].isDir ==> r.Done?
      ensures committed ==>
        && id in old(ids) && !old(ids)[id].isDir
        && ids == old(ids)[id := old(ids)[id].(size := |bytes|, modified := now)]
        && Committed(old(root.tree), Put(old(ids)[id].path, File(Data(bytes))), ids, u)
    {
      committed, u := false, root.tree;
      if failed.Some? { return Failed(failed.value), false, u; }
      ConsistentRecovers(root.tree, ids, paths, root.atomicCleanup);
      if id !in ids { return Failed(NotFound), false, u; }
      var meta := ids[id].(size := |bytes|, modified := now);
      if meta.isDir { return Failed(NotDir), false, u; }
      assert WellFormed(ids, id);
      OverwriteFits(root.tree, ids, meta, bytes);
      r, committed, u := Transaction(Overwrite(meta.path, bytes), Record(meta));
    }

    method WriteComments(id: Id, comment: string) returns (r: Outcome, committed: bool, ghost u: Tree)
      requires Valid()
      modifies this, root
      ensures Atomic(r, committed, u)
      ensures old(failed).None? && id !in old(ids) ==> r == Failed(NotFound)
      ensures root.reliable && old(failed).None? && id in old(ids) ==> r.Done?
      ensures committed ==>
        && id in old(ids) && ids == old(ids)[id := old(ids)[id].(comments := comment)]
        && Committed(old(root.tree), Nothing, ids, u)
    {
      committed, u := false, root.tree;
      if failed.Some? { return Failed(failed.value), false, u; }
      ConsistentRecovers(root.tree, ids, paths, root.atomicCleanup);
      if id !in ids { return Failed(NotFound), false, u; }
      var meta := ids[id].(comments := comment);
      assert WellFormed(ids, id);
      CommentFits(root.tree, ids, meta);
      r, committed, u := Transaction(NoStage, Record(meta));
    }

    method Delete(id: Id) returns (r: Outcome, committed: bool, ghost u: Tree)
      requires Valid()
      modifies this, root
      ensures Atomic(r, committed, u)
      ensures old(failed).None? && id !in old(ids) ==> r == Failed(NotFound)
      ensures root.reliable && old(failed).None? && id in old(ids) ==> r.Done?
      ensures committed ==>
        && id in old(ids) && ids == Deleted(old(ids), old(ids)[id])
        && Committed(old(root.tree), Remove(old(ids)[id].path), ids, u)
    {
      committed, u := false, root.tree;
      if failed.Some? { return Failed(failed.value), false, u; }
      ConsistentRecovers(root.tree, ids, paths, root.atomicCleanup);
      if id !in ids { return Failed(NotFound), false, u; }
      RemoveFits(root.tree, ids, id);
      r, committed, u := Transaction(Evict(ids[id].path), Forget(ids[id]));
    }

    method Move(id: Id, value: string, replace: Option<Id>, now: int)
      returns (r: Outcome, d: Destination, committed: bool, ghost u: Tree)
      requires Valid()
      modifies this, root
      ensures Atomic(r, committed, u)
      ensures old(failed).None? && id !in old(ids) ==> r == Failed(NotFound)
      ensures d.Refused? ==> r == Failed(d.error) && !committed
      ensures root.reliable && d.To? && (d.target.Some? || d.dst !in old(root.tree)) ==> r.Done?
      ensures committed ==>
        && id in old(ids) && d.To? && d.dst != []
        && ids == Relocated(Remaining(old(ids), d.target), old(ids)[id], d.dst, now)
        && Committed(old(root.tree), Relocate(old(ids)[id].path, d.dst), ids, u)
      ensures old(failed).None? && id in old(ids) ==> TransferChecked(old(paths), old(ids)[id], value, replace, d)
    {
      hide TransferChecked, Committed, Consistent, Recovers, Reopenable;
      r, d, committed, u := TransferEntry(id, value, replace, false, now);
    }

    /** Copy; without an expectation it must not replace anything. */
    method Copy(id: Id, value: string, replace: Option<Id>, now: int)
      returns (r: Outcome, d: Destination, committed: bool, ghost u: Tree)
      requires Valid() && (root.atomicCleanup || replace.None? || replace == Some(NIL))
      modifies this, root
      ensures Atomic(r, committed, u)
      ensures old(failed).None? && id !in old(ids) ==> r == Failed(NotFound)
      ensures d.Refused? ==> r == Failed(d.error) && !committed
      ensures root.reliable && d.To? && (d.target.Some? || d.dst !in old(root.tree)) ==> r.Done?
      ensures committed ==>
        && id in old(ids) && d.To? && d.dst != []
        && (exists origin ::
              Numbers(Remaining(old(ids), d.target), old(ids)[id], origin) &&
              ids == Duplicated(Remaining(old(ids), d.target), old(ids)[id], d.dst, now, origin))
        && Committed(old(root.tree), Duplicate(old(ids)[id].path, d.dst), ids, u)
      ensures old(failed).None? && id in old(ids) ==>
        TransferChecked(old(paths), old(ids)[id], value, if replace.None? then Some(NIL) else replace, d)
    {
      hide TransferChecked, Committed, Numbers, Consistent, Recovers, Reopenable;
      r, d, committed, u := TransferEntry(id, value, if replace.None? then Some(NIL) else replace, true, now);
    }

    method TransferEntry(id: Id, value: string, replace: Option<Id>, copy: bool, now: int)
      returns (r: Outcome, d: Destination, committed: bool, ghost u: Tree)
      requires Valid() && (root.atomicCleanup || !copy || replace == Some(NIL))
      modifies this, root
      ensures Atomic(r, committed, u)
      ensures old(failed).None? && id !in old(ids) ==> r == Failed(NotFound)
      ensures d.Refused? ==> r == Failed(d.error) && !committed
      ensures root.reliable && d.To? && (d.target.Some? || d.dst !in old(root.tree)) ==> r.Done?
      ensures committed ==>
        && id in old(ids) && d.To? && d.dst != []
        && Updates(old(ids), Carry(old(ids)[id], d.dst, copy, d.target, now), ids)
        && Committed(old(root.tree), ChangeOf(Transfer(old(ids)[id].path, d.dst, copy, d.target.Some?)), ids, u)
      ensures old(failed).None? && id in old(ids) ==> TransferChecked(old(paths), old(ids)[id], value, replace, d)
    {
      hide CheckTransfer, StoredPath;
      committed, u := false, root.tree;
      if failed.Some? { return Failed(failed.value), Refused(failed.value), false, u; }
      ConsistentRecovers(root.tree, ids, paths, root.atomicCleanup);
      if id !in ids { return Failed(NotFound), Refused(NotFound), false, u; }
      assert WellFormed(ids, id);
      d := CheckTransfer(paths, ids[id], value, replace);
      if d.Refused? { return Failed(d.error), d, false, u; }
      CheckTransferDecides(ids, paths, ids[id], value, replace, d);
      TransferFits(root.tree, ids, id, d.dst, copy, d.target, now);
      r, committed, u := Transaction(Transfer(ids[id].path, d.dst, copy, d.target.Some?), Carry(ids[id], d.dst, copy, d.target, now));
    }

    // ----- Backup and Load -----

    /** Backup: the index, then the content of every file. */
    method Backup() returns (r: Outcome, items: seq<Item>, ghost metas: seq<Meta>, ghost order: seq<Id>)
      requires Valid()
      ensures failed.Some? ==> r == Failed(failed.value)
      ensures root.reliable && failed.None? ==> r.Done?
      ensures r.Done? ==> failed.None? && IsBackup(items, root.tree, ids, metas, order)
    {
      hide ArchiveName, RowOf, NamespaceOk, Closed, Named, Indexed;
      items, metas, order := [], [], [];
      if failed.Some? { return Failed(failed.value), items, metas, order; }
      var snapshot := Snapshot();
      metas := snapshot;
      items := [IndexItem(RowsOf(snapshot))];
      r := root.Sync();
      if !r.Done? { return; }
      r, items, order := BackupFiles(items);
    }

    method BackupFiles(index: seq<Item>) returns (r: Outcome, items: seq<Item>, ghost order: seq<Id>)
      requires |index| == 1 && NamespaceOk(ids) && OnDisk(root.tree, ids)
      ensures r.Done? ==> |items| == |order| + 1 && items[0] == index[0] && MembersOf(root.tree, ids, items, order)
      ensures r.Done? ==> forall id :: id in ids && !ids[id].isDir ==> id in order
      ensures root.reliable ==> r.Done?
    {
      hide ArchiveName;
      items, order := index, [];
      r := Done;
      var todo := ids.Keys;
      while todo != {}
        invariant r.Done? && todo <= ids.Keys
        invariant |items| == |order| + 1 && items[0] == index[0] && MembersOf(root.tree, ids, items, order)
        invariant forall i :: 0 <= i < |order| ==> order[i] !in todo
        invariant forall id :: id in ids && !ids[id].isDir && id !in todo ==> id in order
        decreases |todo|
      {
        var id :| id in todo;
        todo := todo - {id};
        if !ids[id].isDir {
          var node;
          r, node := root.Lstat(ids[id].path);
          if !r.Done? { return; }
          assert WellFormed(ids, id) && Matches(root.tree, ids[id]);
          NextMember(root.tree, ids, items, order, id);
          items := items + [FileItem(ArchiveName(ids[id].path), node.value.content.bytes)];
          order := order + [id];
        }
      }
    }

    /** Load. An archive that validation accepts replaces everything; one that it refuses, or whose load does
        not commit, changes nothing. */
    method Load(items: seq<Item>) returns (r: Outcome, committed: bool, ghost u: Tree)
      requires Valid() && (root.atomicCleanup || LoadsApart(items, root.tree))
      modifies this, root
      ensures Atomic(r, committed, u)
      ensures committed ==> exists s :: Restores(items, ids, s) && Committed(old(root.tree), Replace(s), ids, u)
      ensures root.reliable && old(failed).None? ==> r.Done? || r == Failed(Invalid)
      ensures old(failed).None? && r == Failed(Invalid) ==> !Acceptable(items)
    {
      hide Restores, Committed, LoadsApart;
      committed, u := false, root.tree;
      if failed.Some? { return Failed(failed.value), false, u; }
      ConsistentRecovers(root.tree, ids, paths, root.atomicCleanup);
      r := Begin();
      if !r.Done? { return; }
      r, committed, u := LoadAndRecover(items, u);
    }

    method LoadAndRecover(items: seq<Item>, ghost pre: Tree) returns (r: Outcome, committed: bool, ghost u: Tree)
      requires failed.None? && Begun(root.tree, pre) && Consistent(pre, ids, paths) && (root.atomicCleanup || LoadsApart(items, pre))
      modifies this, root
      ensures Recovers(root.tree, u, root.atomicCleanup) && Reopenable(root.tree, root.atomicCleanup)
      ensures !committed ==> u == pre
      ensures committed ==> exists s :: Restores(items, ids, s) && Committed(pre, Replace(s), ids, u)
      ensures !r.Crashed? ==> Valid()
      ensures !r.Crashed? && !committed ==> ids == old(ids) && paths == old(paths)
      ensures !r.Crashed? && failed.None? ==> root.tree == u
      ensures r.Done? ==> committed && failed.None?
      ensures root.reliable ==> r.Done? || r == Failed(Invalid)
      ensures r == Failed(Invalid) ==> !Acceptable(items)
    {
      hide Restores, Committed, Updates, Acceptable, LoadsApart;
      ghost var up, s;
      var beforeIds, beforePaths := ids, paths;
      r, committed, u, up, s := AttemptLoad(items, pre);
      var keptIds, keptPaths := if committed then ids else beforeIds, if committed then paths else beforePaths;
      EndsReopenable(pre, beforeIds, beforePaths, Replace(s), up, committed, ids, paths, u, root.tree, root.atomicCleanup);
      if r.Crashed? { return; }
      r := Finish(r, keptIds, keptPaths, u);
    }

    method AttemptLoad(items: seq<Item>, ghost pre: Tree)
      returns (r: Outcome, committed: bool, ghost u: Tree, ghost up: Update, ghost s: Tree)
      requires Begun(root.tree, pre) && Consistent(pre, ids, paths) && (root.atomicCleanup || LoadsApart(items, pre))
      modifies this`ids, this`paths, root
      ensures Recovers(root.tree, u, root.atomicCleanup)
      ensures EndsAs(pre, old(ids), Replace(s), up, committed, ids, paths, u)
      ensures committed ==> Restores(items, ids, s)
      ensures r.Done? ==> committed
      ensures root.reliable ==> r.Done? || r == Failed(Invalid)
      ensures r.Failed? ==> r.error == IO || (r.error == Invalid && !Acceptable(items))
    {
      hide Restores, Acceptable, Committed, Exact, NamespaceOk, TopsApart, LoadsApart, TX, STAGED;
      var next, lookup;
      committed, u := false, pre;
      r, next, lookup, s := StageArchive(items, pre);
      up := Adopt(next, lookup);
      StagingSettled(root.tree, pre);
      if !r.Done? { return; }
      ghost var n;
      var moves;
      ExactTops(s, next);
      r, moves, n := ListMoves(root, pre, s);
      if !r.Done? { return; }
      assert INDEX in pre ==> pre[INDEX].File?;
      SwapStaged(root.tree, pre, s, moves, n, next);
      if !root.atomicCleanup { ThisLoadsApart(items, pre, next, s); }
      StagedJournalable(root.tree, pre, Replace(s), moves, root.atomicCleanup);
      ReplaceSuits(pre, ids, s, next, lookup);
      r, committed, u := Publish(Replace(s), Adopt(next, lookup), moves, pre);
    }

    /** The staging closure of Load, up to the listing of the moves. */
    method StageArchive(items: seq<Item>, ghost pre: Tree)
      returns (r: Outcome, next: Entries, lookup: Lookup, ghost s: Tree)
      requires Begun(root.tree, pre)
      modifies root
      ensures Staging(root.tree, pre)
      ensures r.Done? ==>
        && Unpacking(root.tree, pre, s) && Restores(items, next, s)
        && NamespaceOk(next) && SameEntries(next, lookup) && Exact(s, next)
      ensures root.reliable ==> r.Done? || r == Failed(Invalid)
      ensures r.Failed? ==> r.error == IO || (r.error == Invalid && !Acceptable(items))
    {
      hide TX, STAGED, JOURNAL, TX_INDEX, JOURNAL_NEW, EMPTY, Exact, Completed, NamespaceOk, Unpacking, Staging;
      var rows;
      next, lookup, s := map[], map[], EMPTY;
      EmptyUnpacking(root.tree, pre);
      BegunStaging(root.tree, pre);
      r := root.Mkdir(STAGED);
      if !r.Done? { return; }
      r, rows, next, lookup, s := Extract(root, items, pre);
      if !r.Done? { return; }
      UnpackingIsStaging(root.tree, pre, s);
      if rows.None? { return Failed(Invalid), next, lookup, s; }
      ghost var unpacked := s;
      r, s := MakeDirectories(root, next, pre, unpacked);
      if r == Failed(Invalid) { NoneRestored(items, unpacked, rows.value, next); }
      if !r.Done? { return; }
      UnpackingIsStaging(root.tree, pre, s);
      r := WalkStaged(root, next, lookup, pre, unpacked, s);
      if r == Failed(Invalid) { NoneRestored(items, unpacked, rows.value, next); }
    }
  }

  /** What an accepted archive does to a store. */
  lemma ReplaceSuits(pre: Tree, before: Entries, s: Tree, next: Entries, lookup: Lookup)
    requires NamespaceOk(next) && SameEntries(next, lookup) && Exact(s, next) && (INDEX in pre ==> pre[INDEX].File?)
    ensures Suits(pre, before, Replace(s), Adopt(next, lookup))
  {
    hide Sound, NamespaceOk, Exact;
    ReplaceSound(pre, s, next);
  }

  lemma SwapStaged(t: Tree, pre: Tree, s: Tree, moves: seq<Move>, n: nat, ids: Entries)
    requires Staging(t, pre) && NamespaceOk(ids) && Exact(s, ids) && Swapping(t, s, moves, n)
    requires INDEX in pre ==> pre[INDEX].File?
    ensures StagedFor(t, Replace(s), moves)
  {
    hide NamespaceOk, Exact;
    ExactIsStored(s, ids);
    ControlPaths();
    assert INDEX in t ==> INDEX in User(t);
  }

  lemma ExactTops(s: Tree, ids: Entries)
    requires NamespaceOk(ids) && Exact(s, ids)
    ensures forall p :: p in s && |p| == 1 ==> StoredName(p[0])
  {
    hide NamespaceOk, Exact, StoredName;
    ExactIsStored(s, ids);
    forall p | p in s && |p| == 1 ensures StoredName(p[0]) {
      StoredTop(p);
    }
  }

  /** An index determines its entries, so an archive that fails validation is acceptable for no entries. */
  lemma NoneRestored(items: seq<Item>, s: Tree, rows: seq<Row>, ids: Entries)
    requires Unpack(items) == Some(Unpacked(s, Some(rows))) && IndexOf(rows, ids)
    requires forall x :: !CouldBe(s, ids, x)
    ensures !Acceptable(items)
  {
    hide Unpack, Exact, Completed;
    forall other, x ensures !Restores(items, other, x) {
      if IndexOf(rows, other) { SameIndex(rows, ids, other); }
      assert Restores(items, other, x) ==> CouldBe(s, ids, x);
    }
  }

  lemma EmptyUnpacking(t: Tree, pre: Tree)
    requires Begun(t, pre)
    ensures Unpacking(t[STAGED := Dir], pre, EMPTY)
    ensures STAGED != [] && STAGED !in t && IsDir(t, Parent(STAGED))
  {
    BegunStaging(t, pre);
    ControlPaths();
    StagedNames();
    EmptyClosed();
    var t' := t[STAGED := Dir];
    AddedStaging(t, pre, STAGED, Dir);
    forall p ensures Mirrored(t', EMPTY, p) {
      assert TX <= STAGED + p;
      SameSuffix(p, []);
      assert STAGED + [] == STAGED;
      assert STAGED + p == TX ==> false by { assert |STAGED + p| >= |STAGED| > |TX|; }
    }
    forall q ensures InStaging(t', q) { }
  }

  /** How a transaction ends: nothing has happened, or both the files and the index have changed. */
  ghost predicate EndsAs(pre: Tree, before: Entries, c: Change, up: Update, committed: bool,
      next: Entries, paths: Lookup, u: Tree)
  {
    if !committed then u == pre
    else
      Updates(before, up, next) && Consistent(u, next, paths) && Committed(pre, c, next, u)
  }

  lemma EndsReopenable(pre: Tree, before: Entries, beforePaths: Lookup, c: Change, up: Update, committed: bool,
      next: Entries, paths: Lookup, u: Tree, t: Tree, atomic: bool)
    requires Consistent(pre, before, beforePaths) && EndsAs(pre, before, c, up, committed, next, paths, u)
    requires Recovers(t, u, atomic)
    ensures Reopenable(t, atomic)
    ensures Consistent(u, if committed then next else before, if committed then paths else beforePaths)
  {
  }

  lemma CommittedEnds(staged: Tree, pre: Tree, before: Entries, c: Change, up: Update, moves: seq<Move>,
      metas: seq<Meta>, next: Entries, paths: Lookup)
    requires Staging(staged, pre) && StagedFor(staged, c, moves)
    requires Updates(before, up, next) && Sound(Changed(pre, c), next)
    requires SameEntries(next, paths) && Lists(metas, next)
    ensures
      var u := WithIndex(Changed(pre, c), metas);
      EndsAs(pre, before, c, up, true, next, paths, u) && u == CommittedTree(staged, metas, moves)
  {
    CommittedIsChanged(staged, pre, c, metas, moves);
    WithIndexConsistent(Changed(pre, c), next, paths, metas);
  }
}
