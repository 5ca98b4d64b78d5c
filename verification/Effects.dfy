/** Every mutation takes a consistent store to a consistent store: the change of the tree and the change
    of the entries fit together. */
module Effects {
  import opened Paths
  import opened Disk
  import opened Journal
  import opened Recovery
  import opened Namespace
  import opened Transactions
  import opened Store

  /** The tree and the entries agree, the index file apart. */
  ghost predicate Sound(u: Tree, ids: Entries) {
    Closed(u) && TX !in u && Named(u) && NamespaceOk(ids) && OnDisk(u, ids) && (INDEX in u ==> u[INDEX].File?)
  }

  ghost function WithIndex(u: Tree, metas: seq<Meta>): Tree {
    u[INDEX := File(Index(metas))]
  }

  lemma WithIndexConsistent(u: Tree, ids: Entries, paths: Lookup, metas: seq<Meta>)
    requires Sound(u, ids) && SameEntries(ids, paths) && Lists(metas, ids)
    ensures Consistent(WithIndex(u, metas), ids, paths)
  {
    var r := WithIndex(u, metas);
    ControlPaths();
    forall q ensures HasParent(r, q) {
      assert HasParent(u, q);
      if q in u && q != [] && Parent(q) == INDEX { FileIsLeaf(u, INDEX, q); }
    }
    NamedWith(u, INDEX, File(Index(metas)));
    forall id | id in ids ensures Matches(r, ids[id]) {
      assert Matches(u, ids[id]) && WellFormed(ids, id);
      UserPath(ids[id].path);
    }
  }

  lemma NamedWith(u: Tree, p: Path, n: Node)
    requires Named(u) && (p == INDEX || StoredPath(p))
    ensures Named(u[p := n])
  {
    if p != INDEX && p != [] { UserPath(p); }
    assert CleanName(INDEX[0]) && !HasForbidden(INDEX[0]);
    var r := u[p := n];
    forall q ensures NamedAt(r, q) {
      assert NamedAt(u, q);
    }
  }

  lemma InternalBelow(src: Path, dst: Path, p: Path)
    requires StoredPath(dst) && dst != [] && IsInternalPath(p) && src <= p
    ensures IsInternalPath(dst + p[|src|..])
  {
    UserPath(dst);
    var q := dst + p[|src|..];
    forall i | 0 <= i < |q| ensures CleanName(q[i]) && !HasForbidden(q[i]) {
      assert q[i] == if i < |dst| then dst[i] else p[i - |dst| + |src|];
    }
  }

  lemma NamedAfter(u: Tree, src: Path, dst: Path, r: Tree)
    requires Named(u) && StoredPath(dst) && dst != [] && src != []
    requires forall q :: q in r ==> Source(src, dst, q) in u
    ensures Named(r)
  {
    forall q ensures NamedAt(r, q) {
      assert NamedAt(u, Source(src, dst, q));
      if q in r && dst <= q {
        InternalBelow(src, dst, Source(src, dst, q));
        assert q == dst + Source(src, dst, q)[|src|..];
      }
    }
  }

  /** Entries live only where the tree has nodes. */
  lemma FreeInTree(u: Tree, ids: Entries, dst: Path)
    requires Sound(u, ids) && dst !in u
    ensures forall id :: id in ids ==> !(dst <= ids[id].path)
  {
    forall id | id in ids ensures !(dst <= ids[id].path) {
      assert Matches(u, ids[id]);
      if dst <= ids[id].path { NothingBelow(u, dst, ids[id].path); }
    }
  }

  /** An indexed parent is a directory of the tree. */
  lemma ParentOnDisk(u: Tree, ids: Entries, dst: Path)
    requires Sound(u, ids) && dst != [] && HasDirectory(ids, Parent(dst))
    ensures IsDir(u, Parent(dst))
  {
    if Parent(dst) != [] {
      var d :| d in ids && ids[d].path == Parent(dst) && ids[d].isDir;
      assert Matches(u, ids[d]);
    }
  }

  predicate Fits(node: Node, m: Meta) {
    if m.isDir then node.Dir? else node.File? && node.content.Data? && |node.content.bytes| == m.size
  }

  lemma PutSound(u: Tree, ids: Entries, m: Meta, node: Node)
    requires Sound(u, ids) && Fits(node, m) && m.id != NIL && m.id !in ids
    requires m.path != [] && StoredPath(m.path) && m.name == Last(m.path)
    requires m.path !in u && HasDirectory(ids, Parent(m.path))
    ensures Sound(u[m.path := node], ids[m.id := m])
  {
    FreeInTree(u, ids, m.path);
    ParentOnDisk(u, ids, m.path);
    AddedOk(ids, m);
    AddedClosed(u, m.path, node);
    NamedWith(u, m.path, node);
    UserPath(m.path);
    var u', next := u[m.path := node], ids[m.id := m];
    forall id | id in next ensures Matches(u', next[id]) {
      if id != m.id { assert Matches(u, ids[id]); }
    }
  }

  /** Write: the same file with new content. */
  lemma OverwriteSound(u: Tree, ids: Entries, m: Meta, node: Node)
    requires Sound(u, ids) && Fits(node, m) && m.id in ids && !m.isDir
    requires m.path == ids[m.id].path && !ids[m.id].isDir && m.name == ids[m.id].name
    ensures Sound(u[m.path := node], ids[m.id := m])
  {
    UpdatedOk(ids, m);
    assert Matches(u, ids[m.id]) && WellFormed(ids, m.id);
    UserPath(m.path);
    NamedWith(u, m.path, node);
    var r := u[m.path := node];
    forall q ensures HasParent(r, q) {
      assert HasParent(u, q);
      if q in u && q != [] && Parent(q) == m.path { FileIsLeaf(u, m.path, q); }
    }
    var next := ids[m.id := m];
    forall id | id in next ensures Matches(r, next[id]) {
      assert Matches(u, ids[id]) && Unique(ids, id, m.id);
    }
  }

  /** WriteComments: the tree stays as it is. */
  lemma CommentSound(u: Tree, ids: Entries, m: Meta)
    requires Sound(u, ids) && m.id in ids
    requires m.path == ids[m.id].path && m.isDir == ids[m.id].isDir && m.name == ids[m.id].name && m.size == ids[m.id].size
    ensures Sound(u, ids[m.id := m])
  {
    UpdatedOk(ids, m);
    var next := ids[m.id := m];
    forall id | id in next ensures Matches(u, next[id]) {
      assert Matches(u, ids[id]);
    }
  }

  lemma RemoveSound(u: Tree, ids: Entries, root: Id)
    requires Sound(u, ids) && root in ids
    ensures Sound(Without(u, ids[root].path), Deleted(ids, ids[root]))
  {
    var p, r := ids[root].path, Without(u, ids[root].path);
    DeletedOk(ids, root);
    assert WellFormed(ids, root);
    forall q ensures HasParent(r, q) {
      assert HasParent(u, q);
      assert q != [] ==> Parent(q) <= q;
    }
    forall q ensures NamedAt(r, q) {
      assert NamedAt(u, q);
    }
    forall id | id in Deleted(ids, ids[root]) ensures Matches(r, Deleted(ids, ids[root])[id]) {
      assert Matches(u, ids[id]);
    }
  }

  /** The entries left when a transfer has removed what it replaces. */
  function Remaining(ids: Entries, target: Option<Meta>): Entries {
    match target
    case None => ids
    case Some(m) => Deleted(ids, m)
  }

  /** What LocalStorage.transfer has checked: the destination is apart from the source, its parent is
      indexed, and the target, if any, is the entry at the destination. */
  ghost predicate Transferable(u: Tree, ids: Entries, src: Id, dst: Path, target: Option<Meta>) {
    && Sound(u, ids) && src in ids && dst != [] && StoredPath(dst)
    && HasDirectory(ids, Parent(dst)) && Disjoint(ids[src].path, dst)
    && match target
       case None => dst !in u
       case Some(m) => m.id in ids && ids[m.id] == m && m.path == dst
  }

  lemma TransferableApart(u: Tree, ids: Entries, src: Id, dst: Path, target: Option<Meta>)
    requires Transferable(u, ids, src, dst, target)
    ensures Apart(u, ids[src].path, dst)
  {
    assert WellFormed(ids, src) && Matches(u, ids[src]);
    ParentOnDisk(u, ids, dst);
  }

  lemma RemainingPlace(u: Tree, ids: Entries, src: Id, dst: Path, target: Option<Meta>)
    requires Transferable(u, ids, src, dst, target)
    ensures
      var left := Remaining(ids, target);
      NamespaceOk(left) && src in left && left[src] == ids[src] && CanPlace(left, dst) &&
      forall id :: id in left ==> id in ids && left[id] == ids[id]
  {
    match target
    case None => FreeInTree(u, ids, dst);
    case Some(m) =>
      DeletedOk(ids, m.id);
      InSubtreeIsBelow(ids, m.id, src);
      assert Parent(dst) <= dst;
      if Parent(dst) != [] {
        var d :| d in ids && ids[d].path == Parent(dst) && ids[d].isDir;
        assert d in Deleted(ids, m);
      }
  }

  lemma IndexUntouched(src: Path, dst: Path)
    requires StoredPath(src) && src != [] && StoredPath(dst) && dst != []
    ensures !(src <= INDEX) && !(dst <= INDEX) && !(src <= TX) && !(dst <= TX)
  {
    UserPath(src);
    UserPath(dst);
  }

  lemma RelocateSound(u: Tree, ids: Entries, src: Id, dst: Path, target: Option<Meta>, now: int)
    requires Transferable(u, ids, src, dst, target)
    ensures Sound(Moved(u, ids[src].path, dst), Relocated(Remaining(ids, target), ids[src], dst, now))
  {
    var s, r := ids[src].path, Moved(u, ids[src].path, dst);
    var left := Remaining(ids, target);
    RemainingPlace(u, ids, src, dst, target);
    TransferableApart(u, ids, src, dst, target);
    MovedClosed(u, s, dst);
    RelocatedOk(left, src, dst, now);
    assert WellFormed(ids, src);
    IndexUntouched(s, dst);
    assert EntryMoved(u, s, dst, r, TX) && EntryMoved(u, s, dst, r, INDEX);
    MovedNamed(u, s, dst);
    forall id | id in left ensures Matches(r, Relocated(left, ids[src], dst, now)[id]) {
      assert Matches(u, ids[id]) && WellFormed(ids, id);
      InSubtreeIsBelow(left, src, id);
      if s <= ids[id].path {
        RerootedApart(s, dst, ids[id].path, ids[id].path);
        RerootedSource(s, dst, ids[id].path);
        assert EntryMoved(u, s, dst, r, dst + TrimPrefix(ids[id].path, s));
      } else {
        assert EntryMoved(u, s, dst, r, ids[id].path);
      }
    }
  }

  lemma MovedNamed(u: Tree, src: Path, dst: Path)
    requires Named(u) && StoredPath(dst) && dst != [] && src != []
    ensures Named(Moved(u, src, dst))
  {
    var r := Moved(u, src, dst);
    forall q | q in r ensures Source(src, dst, q) in u {
      assert EntryMoved(u, src, dst, r, q);
    }
    NamedAfter(u, src, dst, r);
  }

  lemma CopiedNamed(u: Tree, src: Path, dst: Path)
    requires Named(u) && StoredPath(dst) && dst != [] && src != []
    ensures Named(Copied(u, src, dst))
  {
    var r := Copied(u, src, dst);
    forall q | q in r ensures Source(src, dst, q) in u {
      assert EntryCopied(u, src, dst, r, q);
    }
    NamedAfter(u, src, dst, r);
  }

  lemma RerootedSource(src: Path, dst: Path, p: Path)
    requires src <= p
    ensures dst <= dst + TrimPrefix(p, src) && Source(src, dst, dst + TrimPrefix(p, src)) == p
  {
    assert (dst + TrimPrefix(p, src))[|dst|..] == TrimPrefix(p, src);
  }

  lemma DuplicateSound(u: Tree, ids: Entries, src: Id, dst: Path, target: Option<Meta>, now: int, origin: map<Id, Id>)
    requires Transferable(u, ids, src, dst, target) && Numbers(Remaining(ids, target), ids[src], origin)
    ensures Sound(Copied(u, ids[src].path, dst), Duplicated(Remaining(ids, target), ids[src], dst, now, origin))
  {
    var s, r := ids[src].path, Copied(u, ids[src].path, dst);
    var left := Remaining(ids, target);
    var next := Duplicated(left, ids[src], dst, now, origin);
    RemainingPlace(u, ids, src, dst, target);
    TransferableApart(u, ids, src, dst, target);
    CopiedClosed(u, s, dst);
    DuplicatedOk(left, src, dst, now, origin);
    assert WellFormed(ids, src);
    IndexUntouched(s, dst);
    assert EntryCopied(u, s, dst, r, TX) && EntryCopied(u, s, dst, r, INDEX);
    CopiedNamed(u, s, dst);
    forall x | x in next ensures Matches(r, next[x]) {
      var o := if x in origin then origin[x] else x;
      assert Matches(u, ids[o]);
      if x in origin {
        InSubtreeIsBelow(left, src, o);
        RerootedSource(s, dst, ids[o].path);
        assert EntryCopied(u, s, dst, r, dst + TrimPrefix(ids[o].path, s));
      } else {
        assert EntryCopied(u, s, dst, r, ids[o].path);
      }
    }
  }

  lemma CopiedClosed(t: Tree, src: Path, dst: Path)
    requires Closed(t) && Apart(t, src, dst)
    ensures Closed(Copied(t, src, dst))
  {
    var r := Copied(t, src, dst);
    assert EntryCopied(t, src, dst, r, []);
    forall p ensures HasParent(r, p) {
      if p in r && p != [] {
        assert EntryCopied(t, src, dst, r, p) && EntryCopied(t, src, dst, r, Parent(p));
        SourceOfParent(src, dst, p);
        assert HasParent(t, Source(src, dst, p));
        if p == dst {
          SourceOfParent(src, dst, dst);
          assert !(dst <= Parent(dst));
        }
      }
    }
  }
}
