/** The two maps of a LocalStorage as values: looking paths up, and the updates of the mutations. */
module EntryMaps {
  import opened Paths
  import opened Disk
  import opened Namespace
  import opened RootDirectory
  import opened Store
  import opened Effects

  // ----- Looking up -----

  datatype Found = Found(meta: Meta) | Missing(error: Error)

  /** The entry at a path: the file of that name or else the directory. */
  function Find(paths: Lookup, p: Path): Option<Meta> {
    if Key(p, false) in paths then Some(paths[Key(p, false)])
    else if Key(p, true) in paths then Some(paths[Key(p, true)])
    else None
  }

  /** statPath */
  function StatPath(paths: Lookup, value: string): Found {
    match StoragePath(value)
    case None => Missing(InvalidPath)
    case Some(p) => match Find(paths, p) case None => Missing(NotFound) case Some(m) => Found(m)
  }

  /** checkParent, on the components of a stored path. */
  function CheckParent(paths: Lookup, p: Path): Option<Error> {
    if p == [] || Parent(p) == [] then None
    else match StatPath(paths, Stored(Parent(p), true))
         case Missing(e) => Some(e)
         case Found(m) => if m.isDir then None else Some(NotDir)
  }

  lemma FindExact(ids: Entries, paths: Lookup, p: Path)
    requires SameEntries(ids, paths)
    ensures Find(paths, p).Some? ==>
      var m := Find(paths, p).value; m.id in ids && ids[m.id] == m && m.path == p
    ensures Find(paths, p).None? ==> forall id :: id in ids ==> ids[id].path != p
  {
    if Key(p, false) in paths {
      assert Backed(ids, paths, Key(p, false));
    } else if Key(p, true) in paths {
      assert Backed(ids, paths, Key(p, true));
    } else {
      forall id | id in ids ensures ids[id].path != p {
        assert Listed(ids, paths, id);
      }
    }
  }

  /** The string-level parent check decides whether the parent is an indexed directory. */
  lemma CheckParentDecides(ids: Entries, paths: Lookup, p: Path)
    requires SameEntries(ids, paths) && StoredPath(p) && p != []
    requires forall a, b {:trigger Unique(ids, a, b)} :: a in ids && b in ids ==> Unique(ids, a, b)
    ensures CheckParent(paths, p).None? <==> HasDirectory(ids, Parent(p))
  {
    hide StoragePath, Stored;
    var up := Parent(p);
    if up != [] {
      DirectoryStable(up);
      FindExact(ids, paths, up);
      if IsDirectory(ids, up) {
        var d :| d in ids && ids[d].path == up && ids[d].isDir;
        assert Unique(ids, d, Find(paths, up).value.id);
      }
    }
  }

  lemma NothingFound()
    ensures forall v :: StatPath(map[], v).Missing?
  {
    hide StoragePath;
  }

  /** The checks of Create and Mkdir before the transaction. */
  function CheckNew(paths: Lookup, value: string, isDir: bool): Option<Error> {
    match StoragePath(value)
    case None => Some(InvalidPath)
    case Some(p) =>
      if p == [] then Some(InvalidPath)
      else if StatPath(paths, Stored(p, isDir)).Found? then Some(AlreadyExists)
      else CheckParent(paths, p)
  }

  /** The checks passed or failed as `error` says; if they passed, p is the path to create. */
  ghost predicate NewChecked(paths: Lookup, value: string, isDir: bool, error: Option<Error>, p: Path) {
    error == CheckNew(paths, value, isDir) && (error.None? ==> StoragePath(value) == Some(p))
  }

  ghost predicate Vacant(ids: Entries, p: Path) {
    forall id :: id in ids ==> ids[id].path != p
  }

  /** What the checks decide. A directory passes exactly when its path is free and its parent is indexed; so
      does a file, unless its name ends in white space, in which case another path has been looked up. */
  lemma CheckNewDecides(ids: Entries, paths: Lookup, value: string, isDir: bool, p: Path)
    requires NamespaceOk(ids) && SameEntries(ids, paths) && StoragePath(value) == Some(p)
    ensures CheckNew(paths, value, isDir).None? ==> p != [] && StoredPath(p) && HasDirectory(ids, Parent(p))
    ensures p != [] && (isDir || !EndsInSpace(Last(p))) ==>
      (CheckNew(paths, value, isDir).None? <==> HasDirectory(ids, Parent(p)) && Vacant(ids, p))
  {
    hide StoragePath, Stored;
    StoragePathYieldsStoredNames(value);
    if p != [] {
      CheckParentDecides(ids, paths, p);
      FindExact(ids, paths, p);
      if isDir { DirectoryStable(p); } else { FileStable(p); }
    }
  }

  /** The checks of Move and Copy before the transaction: the destination and the entry there, or an error. */
  datatype Destination = To(dst: Path, target: Option<Meta>) | Refused(error: Error)

  function IdOf(m: Option<Meta>): Option<Id> {
    match m case None => None case Some(meta) => Some(meta.id)
  }

  function CheckTransfer(paths: Lookup, src: Meta, value: string, replace: Option<Id>): Destination {
    match StoragePath(value)
    case None => Refused(InvalidPath)
    case Some(p) =>
      match TransferPath(src.path, src.isDir, Stored(p, false))
      case None => Refused(InvalidPath)
      case Some(dst) =>
        if CheckParent(paths, dst).Some? then Refused(CheckParent(paths, dst).value)
        else if !CheckReplacement(IdOf(Find(paths, dst)), replace) then Refused(AlreadyExists)
        else To(dst, Find(paths, dst))
  }

  ghost predicate TransferChecked(paths: Lookup, src: Meta, value: string, replace: Option<Id>, d: Destination) {
    d == CheckTransfer(paths, src, value, replace)
  }

  /** What a transfer is free to assume once the checks have passed. */
  lemma CheckTransferDecides(ids: Entries, paths: Lookup, src: Meta, value: string, replace: Option<Id>, d: Destination)
    requires NamespaceOk(ids) && SameEntries(ids, paths) && src.id in ids && ids[src.id] == src
    requires TransferChecked(paths, src, value, replace, d) && d.To?
    ensures
      d.dst != [] && StoredPath(d.dst) && HasDirectory(ids, Parent(d.dst)) && Disjoint(src.path, d.dst) &&
      (match d.target
       case None => (forall id :: id in ids ==> ids[id].path != d.dst) && (replace.Some? ==> replace.value == NIL)
       case Some(m) => m.id in ids && ids[m.id] == m && m.path == d.dst && (replace.Some? ==> replace.value == m.id != NIL))
  {
    hide StoragePath, Stored, TransferPath;
    var p, dst := StoragePath(value).value, d.dst;
    assert WellFormed(ids, src.id);
    StoredIsClean(src.path);
    StoragePathYieldsStoredNames(value);
    TransferKeepsStoredNames(src.path, src.isDir, p);
    TransferPathDecidesAncestry(src.path, src.isDir, Stored(p, false));
    CheckParentDecides(ids, paths, dst);
    FindExact(ids, paths, dst);
    if d.target.Some? { assert WellFormed(ids, d.target.value.id); }
    TransferApart(ids, src.id, dst);
  }

  lemma StoredIsClean(p: Path)
    requires StoredPath(p)
    ensures CleanPath(p)
  {
    forall i | 0 <= i < |p| ensures CleanName(p[i]) {
      assert StoredName(p[i]);
    }
  }

  /** What the string checks of a transfer leave is apart from the source: a file has nothing below it. */
  lemma TransferApart(ids: Entries, src: Id, dst: Path)
    requires NamespaceOk(ids) && src in ids && dst != [] && HasDirectory(ids, Parent(dst))
    requires !(dst <= ids[src].path) && !(ids[src].isDir && ids[src].path <= dst)
    ensures Disjoint(ids[src].path, dst)
  {
    var s := ids[src].path;
    assert WellFormed(ids, src);
    if s <= dst {
      assert s <= Parent(dst);
      var d :| d in ids && ids[d].path == Parent(dst) && ids[d].isDir;
      assert Unique(ids, src, d);
      if s != Parent(dst) { BelowDirectory(ids, src, d); }
    }
  }

  // ----- Updating both maps -----

  lemma EntryAdded(ids: Entries, paths: Lookup, m: Meta)
    requires SameEntries(ids, paths) && m.id !in ids && KeyOf(m) !in paths
    ensures SameEntries(ids[m.id := m], paths[KeyOf(m) := m])
  {
    var ids', paths' := ids[m.id := m], paths[KeyOf(m) := m];
    forall id | id in ids' ensures Listed(ids', paths', id) {
      if id != m.id { assert Listed(ids, paths, id); }
    }
    forall k | k in paths' ensures Backed(ids', paths', k) {
      if k != KeyOf(m) { assert Backed(ids, paths, k); }
    }
  }

  lemma EntryDropped(ids: Entries, paths: Lookup, id: Id)
    requires SameEntries(ids, paths) && id in ids
    ensures SameEntries(ids - {id}, paths - {KeyOf(ids[id])})
  {
    var ids', paths' := ids - {id}, paths - {KeyOf(ids[id])};
    assert Listed(ids, paths, id);
    forall x | x in ids' ensures Listed(ids', paths', x) {
      assert Listed(ids, paths, x);
      assert Backed(ids, paths, KeyOf(ids[x]));
    }
    forall k | k in paths' ensures Backed(ids', paths', k) {
      assert Backed(ids, paths, k);
      assert Listed(ids, paths, paths[k].id);
    }
  }

  /** Replacing an entry of the maps by one with the same ID whose key is free or its own. */
  lemma EntryReplaced(ids: Entries, paths: Lookup, m: Meta)
    requires SameEntries(ids, paths) && m.id in ids
    requires KeyOf(m) !in paths || KeyOf(m) == KeyOf(ids[m.id])
    ensures SameEntries(ids[m.id := m], (paths - {KeyOf(ids[m.id])})[KeyOf(m) := m])
  {
    EntryDropped(ids, paths, m.id);
    EntryAdded(ids - {m.id}, paths - {KeyOf(ids[m.id])}, m);
    assert (ids - {m.id})[m.id := m] == ids[m.id := m];
  }

  /** Where there is a key, an entry lives. */
  lemma KeyHasEntry(ids: Entries, paths: Lookup, k: Key)
    requires SameEntries(ids, paths)
    ensures k in paths ==> exists id :: id in ids && ids[id].path == k.path
  {
    if k in paths {
      assert Backed(ids, paths, k);
    }
  }

  /** The update closures. */
  datatype Update =
    | Record(meta: Meta)
    | Forget(root: Meta)
    | Carry(src: Meta, dst: Path, copy: bool, target: Option<Meta>, now: int)
    | Adopt(ids: Entries, paths: Lookup)

  ghost predicate Updates(before: Entries, up: Update, after: Entries) {
    match up
    case Record(m) => after == before[m.id := m]
    case Forget(root) => after == Deleted(before, root)
    case Carry(src, dst, copy, target, now) =>
      dst != [] &&
      if !copy then after == Relocated(Remaining(before, target), src, dst, now)
      else exists origin :: Numbers(Remaining(before, target), src, origin) &&
             after == Duplicated(Remaining(before, target), src, dst, now, origin)
    case Adopt(next, _) => after == next
  }

  /** What the callers have checked about an update. */
  ghost predicate Updatable(ids: Entries, up: Update) {
    match up
    case Record(m) =>
      m.id != NIL && if m.id in ids then KeyOf(ids[m.id]) == KeyOf(m) else forall id :: id in ids ==> ids[id].path != m.path
    case Forget(root) => root.id in ids && ids[root.id] == root
    case Carry(src, dst, _, target, _) =>
      && src.id in ids && ids[src.id] == src
      && (target.Some? ==> target.value.id in ids && ids[target.value.id] == target.value && target.value.path == dst)
      && Carrying(Remaining(ids, target), src, dst)
    case Adopt(next, paths) => SameEntries(next, paths)
  }

  /** Some entries of the source's subtree have been re-rooted. */
  ghost predicate Carried(left: Entries, src: Meta, dst: Path, now: int, done: set<Id>, r: Entries)
    requires dst != []
  {
    r.Keys == left.Keys &&
    forall id :: id in r ==> r[id] == if id in done then Rerooted(left[id], src.path, dst, now, id) else left[id]
  }

  /** The new key of the next entry to be carried is free. */
  lemma CarriedKeyFree(left: Entries, src: Meta, dst: Path, now: int, done: set<Id>, r: Entries, paths: Lookup, id: Id)
    requires NamespaceOk(left) && src.id in left && left[src.id] == src && CanPlace(left, dst) && Disjoint(src.path, dst)
    requires Carried(left, src, dst, now, done, r) && SameEntries(r, paths)
    requires forall x :: x in done ==> x in left && InSubtree(src, left[x])
    requires id in left && id !in done && InSubtree(src, left[id])
    ensures KeyOf(Rerooted(left[id], src.path, dst, now, id)) !in paths
  {
    var m := Rerooted(left[id], src.path, dst, now, id);
    forall x | x in r ensures r[x].path != m.path {
      CarriedApart(left, src, dst, now, id, x);
    }
    KeyHasEntry(r, paths, KeyOf(m));
  }

  /** The source and the destination of a transfer once the target is gone. */
  ghost predicate Carrying(left: Entries, src: Meta, dst: Path) {
    NamespaceOk(left) && src.id in left && left[src.id] == src && CanPlace(left, dst) && Disjoint(src.path, dst)
  }

  ghost predicate Subtree(left: Entries, src: Meta, items: set<Id>) {
    forall id :: id in items <==> id in left && InSubtree(src, left[id])
  }

  /** A move under way. */
  ghost predicate Moving(left: Entries, src: Meta, dst: Path, now: int, items: set<Id>, done: set<Id>, r: Entries,
      paths: Lookup) {
    Carrying(left, src, dst) && Subtree(left, src, items) && done <= items &&
    Carried(left, src, dst, now, done, r) && SameEntries(r, paths)
  }

  /** Carrying the next entry keeps the two maps together. */
  lemma MoveStep(left: Entries, src: Meta, dst: Path, now: int, items: set<Id>, done: set<Id>, r: Entries,
      paths: Lookup, id: Id)
    requires Moving(left, src, dst, now, items, done, r, paths) && id in items && id !in done
    ensures id in r
    ensures
      var m := Rerooted(r[id], src.path, dst, now, id);
      Moving(left, src, dst, now, items, done + {id}, r[id := m], (paths - {KeyOf(r[id])})[KeyOf(m) := m])
  {
    CarriedKeyFree(left, src, dst, now, done, r, paths, id);
    assert WellFormed(left, id);
    EntryReplaced(r, paths, Rerooted(left[id], src.path, dst, now, id));
  }

  lemma MoveComplete(left: Entries, src: Meta, dst: Path, now: int, items: set<Id>, r: Entries, paths: Lookup)
    requires Moving(left, src, dst, now, items, items, r, paths)
    ensures r == Relocated(left, src, dst, now)
  {
    CarriedIsRelocated(left, src, dst, now, items, r);
  }

  /** A copy under way. */
  ghost predicate Duplicating(left: Entries, src: Meta, dst: Path, now: int, items: set<Id>, done: set<Id>,
      origin: map<Id, Id>, r: Entries, paths: Lookup) {
    Carrying(left, src, dst) && Subtree(left, src, items) && done <= items && Numbering(left, src, done, origin) &&
    r == Duplicated(left, src, dst, now, origin) && SameEntries(r, paths)
  }

  /** Copying the next entry keeps the two maps together. */
  lemma DuplicateStep(left: Entries, src: Meta, dst: Path, now: int, items: set<Id>, done: set<Id>,
      origin: map<Id, Id>, r: Entries, paths: Lookup, id: Id, x: Id)
    requires Duplicating(left, src, dst, now, items, done, origin, r, paths) && id in items && id !in done
    requires x !in r && x != NIL
    ensures id in r
    ensures
      var m := Rerooted(r[id], src.path, dst, now, x);
      Duplicating(left, src, dst, now, items, done + {id}, origin[x := id], r[x := m], paths[KeyOf(m) := m])
  {
    CopyKeyFree(left, src, dst, now, done, origin, paths, id, x);
    EntryAdded(r, paths, Rerooted(left[id], src.path, dst, now, x));
    DuplicatedNext(left, src, dst, now, done, origin, id, x);
    NumberNext(left, src, done, origin, id, x);
  }

  lemma DuplicateComplete(left: Entries, src: Meta, dst: Path, now: int, items: set<Id>, origin: map<Id, Id>,
      r: Entries, paths: Lookup)
    requires Duplicating(left, src, dst, now, items, items, origin, r, paths)
    ensures Numbers(left, src, origin) && r == Duplicated(left, src, dst, now, origin)
  {
  }

  lemma CarriedApart(left: Entries, src: Meta, dst: Path, now: int, id: Id, x: Id)
    requires NamespaceOk(left) && src.id in left && left[src.id] == src && CanPlace(left, dst)
    requires id in left && InSubtree(src, left[id]) && x in left
    ensures x != id && InSubtree(src, left[x]) ==>
      Rerooted(left[id], src.path, dst, now, id).path != Rerooted(left[x], src.path, dst, now, x).path
    ensures Rerooted(left[id], src.path, dst, now, id).path != left[x].path
  {
    assert Unique(left, id, x);
    InSubtreeIsBelow(left, src.id, id);
    InSubtreeIsBelow(left, src.id, x);
    RerootedApart(src.path, dst, left[id].path, left[x].path);
  }

  lemma CarriedIsRelocated(left: Entries, src: Meta, dst: Path, now: int, done: set<Id>, r: Entries)
    requires dst != [] && Carried(left, src, dst, now, done, r) && NamespaceOk(left)
    requires forall x :: x in left ==> (x in done <==> InSubtree(src, left[x]))
    ensures r == Relocated(left, src, dst, now)
  {
    forall id | id in left ensures r[id] == Relocated(left, src, dst, now)[id] {
      assert WellFormed(left, id);
    }
  }

  /** Removing what a transfer replaces takes nothing from the source's subtree. */
  lemma RemainingKeeps(ids: Entries, src: Meta, dst: Path, copy: bool, target: Option<Meta>, now: int)
    requires NamespaceOk(ids) && Updatable(ids, Carry(src, dst, copy, target, now))
    ensures forall id :: id in ids && InSubtree(src, ids[id]) ==> id in Remaining(ids, target)
  {
    forall id | id in ids && InSubtree(src, ids[id]) ensures id in Remaining(ids, target) {
      if target.Some? {
        InSubtreeIsBelow(ids, src.id, id);
        InSubtreeIsBelow(ids, target.value.id, id);
        NotBelowOther(src.path, dst, ids[id].path);
      }
    }
  }

  // ----- Copies -----

  /** Some entries of the source's subtree have been copied under fresh IDs. */
  ghost predicate Numbering(left: Entries, src: Meta, done: set<Id>, origin: map<Id, Id>) {
    && (forall x :: x in origin ==> x !in left && x != NIL && origin[x] in done)
    && (forall x, y :: x in origin && y in origin && origin[x] == origin[y] ==> x == y)
    && (forall id :: id in done ==> exists x :: x in origin && origin[x] == id)
    && (forall id :: id in done ==> id in left && InSubtree(src, left[id]))
  }

  lemma NumberNext(left: Entries, src: Meta, done: set<Id>, origin: map<Id, Id>, id: Id, x: Id)
    requires Numbering(left, src, done, origin) && id in left && id !in done && InSubtree(src, left[id])
    requires x !in left && x !in origin && x != NIL
    ensures Numbering(left, src, done + {id}, origin[x := id])
  {
    var origin' := origin[x := id];
    forall i | i in done + {id} ensures exists y :: y in origin' && origin'[y] == i {
      if i == id {
        assert origin'[x] == id;
      } else {
        var y :| y in origin && origin[y] == i;
        assert origin'[y] == i;
      }
    }
  }

  lemma DuplicatedNext(left: Entries, src: Meta, dst: Path, now: int, done: set<Id>, origin: map<Id, Id>, id: Id, x: Id)
    requires Numbering(left, src, done, origin) && id in left && x !in left && x !in origin && dst != []
    ensures
      Duplicated(left, src, dst, now, origin)[x := Rerooted(left[id], src.path, dst, now, x)] ==
      Duplicated(left, src, dst, now, origin[x := id])
  {
  }

  lemma CopyKeyFree(left: Entries, src: Meta, dst: Path, now: int, done: set<Id>, origin: map<Id, Id>,
      paths: Lookup, id: Id, x: Id)
    requires NamespaceOk(left) && src.id in left && left[src.id] == src && CanPlace(left, dst)
    requires Numbering(left, src, done, origin) && id in left && id !in done && InSubtree(src, left[id])
    requires SameEntries(Duplicated(left, src, dst, now, origin), paths)
    ensures KeyOf(Rerooted(left[id], src.path, dst, now, x)) !in paths
  {
    var r, m := Duplicated(left, src, dst, now, origin), Rerooted(left[id], src.path, dst, now, x);
    forall y | y in r ensures r[y].path != m.path {
      CarriedApart(left, src, dst, now, id, if y in origin then origin[y] else y);
    }
    KeyHasEntry(r, paths, KeyOf(m));
  }

  lemma NothingNumbered(left: Entries, src: Meta, dst: Path, now: int)
    requires dst != []
    ensures Numbering(left, src, {}, map[]) && Duplicated(left, src, dst, now, map[]) == left
  {
  }
}
