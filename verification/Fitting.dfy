/** The staged change of the tree and the update of the maps fit together, mutation by mutation. */
module Fittings {
  import opened Paths
  import opened Disk
  import opened Namespace
  import opened Store
  import opened Effects
  import opened StagingArea
  import opened EntryMaps

  /** The update is possible, and whatever entries it leads to, they fit the changed tree. */
  ghost predicate Suits(pre: Tree, ids: Entries, c: Change, up: Update) {
    Updatable(ids, up) &&
    forall next {:trigger Updates(ids, up, next)} :: Updates(ids, up, next) ==> Sound(Changed(pre, c), next)
  }

  /** The same, once the closure has found its target free. */
  ghost predicate Fitting(pre: Tree, ids: Entries, s: Stage, up: Update) {
    Unoccupied(pre, s) ==> Suits(pre, ids, ChangeOf(s), up)
  }

  lemma NewFits(u: Tree, ids: Entries, s: Stage, m: Meta, node: Node)
    requires Sound(u, ids) && Fits(node, m) && m.id != NIL && m.id !in ids
    requires m.path != [] && StoredPath(m.path) && m.name == Last(m.path) && HasDirectory(ids, Parent(m.path))
    requires (s.NewFile? && s.path == m.path && node == File(Data(s.bytes))) || (s == NewDirectory(m.path) && node == Dir)
    ensures Fitting(u, ids, s, Record(m)) && Prepared(u, s)
  {
    ParentOnDisk(u, ids, m.path);
    if m.path !in u {
      FreeInTree(u, ids, m.path);
      PutSound(u, ids, m, node);
    }
  }

  lemma OverwriteFits(u: Tree, ids: Entries, m: Meta, bytes: seq<byte>)
    requires Sound(u, ids) && m.id in ids && !m.isDir && m.size == |bytes|
    requires m.path == ids[m.id].path && !ids[m.id].isDir && m.name == ids[m.id].name
    ensures Fitting(u, ids, Overwrite(m.path, bytes), Record(m)) && Prepared(u, Overwrite(m.path, bytes))
  {
    assert WellFormed(ids, m.id) && Matches(u, ids[m.id]) && HasParent(u, m.path);
    OverwriteSound(u, ids, m, File(Data(bytes)));
  }

  lemma CommentFits(u: Tree, ids: Entries, m: Meta)
    requires Sound(u, ids) && m.id in ids && m == ids[m.id].(comments := m.comments)
    ensures Fitting(u, ids, NoStage, Record(m)) && Prepared(u, NoStage)
  {
    assert WellFormed(ids, m.id);
    CommentSound(u, ids, m);
  }

  lemma RemoveFits(u: Tree, ids: Entries, id: Id)
    requires Sound(u, ids) && id in ids
    ensures Fitting(u, ids, Evict(ids[id].path), Forget(ids[id])) && Prepared(u, Evict(ids[id].path))
  {
    assert WellFormed(ids, id) && Matches(u, ids[id]);
    RemoveSound(u, ids, id);
  }

  lemma MoveUpdateSound(u: Tree, ids: Entries, src: Id, dst: Path, target: Option<Meta>, now: int, next: Entries)
    requires Transferable(u, ids, src, dst, target)
    requires Updates(ids, Carry(ids[src], dst, false, target, now), next)
    ensures Sound(Moved(u, ids[src].path, dst), next)
  {
    RelocateSound(u, ids, src, dst, target, now);
  }

  lemma CopyUpdateSound(u: Tree, ids: Entries, src: Id, dst: Path, target: Option<Meta>, now: int, next: Entries)
    requires Transferable(u, ids, src, dst, target)
    requires Updates(ids, Carry(ids[src], dst, true, target, now), next)
    ensures Sound(Copied(u, ids[src].path, dst), next)
  {
    var left := Remaining(ids, target);
    var origin :| Numbers(left, ids[src], origin) && next == Duplicated(left, ids[src], dst, now, origin);
    DuplicateSound(u, ids, src, dst, target, now, origin);
  }

  lemma TransferSuits(u: Tree, ids: Entries, src: Id, dst: Path, copy: bool, target: Option<Meta>, now: int)
    requires Transferable(u, ids, src, dst, target)
    ensures Suits(u, ids, if copy then Duplicate(ids[src].path, dst) else Relocate(ids[src].path, dst),
                  Carry(ids[src], dst, copy, target, now))
  {
    hide Sound, NamespaceOk, CanPlace, HasDirectory, IsRelocated, IsDuplicated, IsMoved, IsCopied;
    RemainingPlace(u, ids, src, dst, target);
    SourceNamed(u, ids, src);
    forall next | Updates(ids, Carry(ids[src], dst, copy, target, now), next)
      ensures Sound(if copy then Copied(u, ids[src].path, dst) else Moved(u, ids[src].path, dst), next)
    {
      if copy {
        CopyUpdateSound(u, ids, src, dst, target, now, next);
      } else {
        MoveUpdateSound(u, ids, src, dst, target, now, next);
      }
    }
  }

  lemma SourceNamed(u: Tree, ids: Entries, id: Id)
    requires Sound(u, ids) && id in ids
    ensures ids[id].id == id && ids[id].path in u && StoredPath(ids[id].path) && ids[id].path != []
  {
    assert WellFormed(ids, id) && Matches(u, ids[id]);
  }

  lemma TransferFits(u: Tree, ids: Entries, src: Id, dst: Path, copy: bool, target: Option<Meta>, now: int)
    requires Sound(u, ids) && src in ids && dst != [] && StoredPath(dst) && HasDirectory(ids, Parent(dst))
    requires Disjoint(ids[src].path, dst)
    requires target.Some? ==> target.value.id in ids && ids[target.value.id] == target.value && target.value.path == dst
    ensures
      var s := Transfer(ids[src].path, dst, copy, target.Some?);
      Prepared(u, s) && Fitting(u, ids, s, Carry(ids[src], dst, copy, target, now))
  {
    hide Suits, NamespaceOk;
    var s := Transfer(ids[src].path, dst, copy, target.Some?);
    SourceNamed(u, ids, src);
    ParentOnDisk(u, ids, dst);
    if target.Some? { assert Matches(u, target.value); }
    if Unoccupied(u, s) {
      TransferSuits(u, ids, src, dst, copy, target, now);
    }
  }
}
