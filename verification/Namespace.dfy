/** The namespace both drivers implement: entries by ID, each with a path and a kind, and the pure effect
    of deleting and transferring subtrees. */
module Namespace {
  import opened Paths
  import opened Disk

  type Id = nat
  const NIL: Id := 0

  type Entries = map<Id, Meta>

  /** A stored path string: the components and whether a slash ends it. */
  datatype Key = Key(path: Path, isDir: bool)

  type Lookup = map<Key, Meta>

  function KeyOf(m: Meta): Key {
    Key(m.path, m.isDir)
  }

  function Last(p: Path): string
    requires p != []
  {
    p[|p| - 1]
  }

  // ----- The invariant -----

  predicate WellFormed(ids: Entries, id: Id)
    requires id in ids
  {
    var m := ids[id];
    m.id == id && id != NIL && m.path != [] && StoredPath(m.path) && m.name == Last(m.path)
  }

  /** Paths are unique up to the trailing slash. */
  predicate Unique(ids: Entries, a: Id, b: Id)
    requires a in ids && b in ids
  {
    ids[a].path == ids[b].path ==> a == b
  }

  ghost predicate IsDirectory(ids: Entries, p: Path) {
    exists d :: d in ids && ids[d].path == p && ids[d].isDir
  }

  ghost predicate HasDirectory(ids: Entries, p: Path) {
    p == [] || IsDirectory(ids, p)
  }

  ghost predicate ParentIndexed(ids: Entries, id: Id)
    requires id in ids
  {
    ids[id].path != [] && HasDirectory(ids, Parent(ids[id].path))
  }

  ghost predicate NamespaceOk(ids: Entries) {
    && (forall id {:trigger WellFormed(ids, id)} :: id in ids ==> WellFormed(ids, id))
    && (forall a, b {:trigger Unique(ids, a, b)} :: a in ids && b in ids ==> Unique(ids, a, b))
    && (forall id {:trigger ParentIndexed(ids, id)} :: id in ids ==> ParentIndexed(ids, id))
  }

  predicate Listed(ids: Entries, paths: Lookup, id: Id)
    requires id in ids
  {
    ids[id].id == id && KeyOf(ids[id]) in paths && paths[KeyOf(ids[id])] == ids[id]
  }

  predicate Backed(ids: Entries, paths: Lookup, k: Key)
    requires k in paths
  {
    paths[k].id in ids && ids[paths[k].id] == paths[k] && KeyOf(paths[k]) == k
  }

  /** The two maps hold the same entries. */
  ghost predicate SameEntries(ids: Entries, paths: Lookup) {
    && (forall id {:trigger Listed(ids, paths, id)} :: id in ids ==> Listed(ids, paths, id))
    && (forall k {:trigger Backed(ids, paths, k)} :: k in paths ==> Backed(ids, paths, k))
  }

  // ----- Subtrees -----

  /** The test of Delete and of the transfers: the entry itself, or one whose stored path extends the
      stored path of a directory. */
  predicate InSubtree(root: Meta, m: Meta) {
    m.id == root.id || (root.isDir && root.path <= m.path && (m.path != root.path || m.isDir))
  }

  /** Only a directory has entries below it. */
  lemma BelowDirectory(ids: Entries, root: Id, id: Id)
    requires NamespaceOk(ids) && root in ids && id in ids
    requires ids[root].path < ids[id].path
    ensures ids[root].isDir
    decreases |ids[id].path|
  {
    assert WellFormed(ids, root) && ParentIndexed(ids, id);
    var d :| d in ids && ids[d].path == Parent(ids[id].path) && ids[d].isDir;
    if ids[root].path == ids[d].path {
      assert Unique(ids, root, d);
    } else {
      BelowDirectory(ids, root, d);
    }
  }

  /** In a namespace the test means: at or below the entry. */
  lemma InSubtreeIsBelow(ids: Entries, root: Id, id: Id)
    requires NamespaceOk(ids) && root in ids && id in ids
    ensures InSubtree(ids[root], ids[id]) <==> ids[root].path <= ids[id].path
  {
    assert WellFormed(ids, root) && WellFormed(ids, id) && Unique(ids, root, id);
    if ids[root].path < ids[id].path {
      BelowDirectory(ids, root, id);
    }
  }

  function Deleted(ids: Entries, root: Meta): (r: Entries)
    ensures forall id :: id in r <==> id in ids && !InSubtree(root, ids[id])
    ensures forall id :: id in r ==> r[id] == ids[id]
  {
    ids - (set id | id in ids && InSubtree(root, ids[id]))
  }

  /** strings.TrimPrefix of the source's path. */
  function TrimPrefix(p: Path, src: Path): Path {
    if src <= p then p[|src|..] else p
  }

  /** An entry of the source's subtree, seen below dst. */
  function Rerooted(m: Meta, src: Path, dst: Path, now: int, id: Id): Meta
    requires dst != []
  {
    var p := dst + TrimPrefix(m.path, src);
    m.(id := id, path := p, name := Last(p), modified := now)
  }

  /** What a move makes of one entry. */
  function RelocatedEntry(m: Meta, src: Meta, dst: Path, now: int): Meta
    requires dst != []
  {
    if InSubtree(src, m) then Rerooted(m, src.path, dst, now, m.id) else m
  }

  ghost predicate IsRelocated(ids: Entries, src: Meta, dst: Path, now: int, r: Entries)
    requires dst != []
  {
    r.Keys == ids.Keys && forall id :: id in r ==> r[id] == RelocatedEntry(ids[id], src, dst, now)
  }

  ghost function Relocated(ids: Entries, src: Meta, dst: Path, now: int): (r: Entries)
    requires dst != []
    ensures IsRelocated(ids, src, dst, now, r)
  {
    RelocatedExists(ids, src, dst, now);
    var r :| IsRelocated(ids, src, dst, now, r);
    r
  }

  lemma RelocatedExists(ids: Entries, src: Meta, dst: Path, now: int)
    requires dst != []
    ensures exists r :: IsRelocated(ids, src, dst, now, r)
  {
    var r := map id | id in ids :: RelocatedEntry(ids[id], src, dst, now);
    assert IsRelocated(ids, src, dst, now, r);
  }

  /** `origin` says of each fresh ID which entry it copies. */
  ghost predicate IsDuplicated(ids: Entries, src: Meta, dst: Path, now: int, origin: map<Id, Id>, r: Entries)
    requires dst != [] && forall x :: x in origin ==> origin[x] in ids
  {
    && r.Keys == ids.Keys + origin.Keys
    && forall x :: x in r ==>
         r[x] == if x in origin then Rerooted(ids[origin[x]], src.path, dst, now, x) else ids[x]
  }

  ghost function Duplicated(ids: Entries, src: Meta, dst: Path, now: int, origin: map<Id, Id>): (r: Entries)
    requires dst != [] && forall x :: x in origin ==> origin[x] in ids
    ensures IsDuplicated(ids, src, dst, now, origin, r)
  {
    DuplicatedExists(ids, src, dst, now, origin);
    var r :| IsDuplicated(ids, src, dst, now, origin, r);
    r
  }

  lemma DuplicatedExists(ids: Entries, src: Meta, dst: Path, now: int, origin: map<Id, Id>)
    requires dst != [] && forall x :: x in origin ==> origin[x] in ids
    ensures exists r :: IsDuplicated(ids, src, dst, now, origin, r)
  {
    var r := map x | x in ids.Keys + origin.Keys ::
      if x in origin then Rerooted(ids[origin[x]], src.path, dst, now, x) else ids[x];
    assert IsDuplicated(ids, src, dst, now, origin, r);
  }

  /** The fresh IDs number the source's subtree, each entry once. */
  ghost predicate Numbers(ids: Entries, src: Meta, origin: map<Id, Id>) {
    && (forall x :: x in origin ==> x !in ids && x != NIL && origin[x] in ids && InSubtree(src, ids[origin[x]]))
    && (forall x, y :: x in origin && y in origin && origin[x] == origin[y] ==> x == y)
    && (forall id :: id in ids && InSubtree(src, ids[id]) ==> exists x :: x in origin && origin[x] == id)
  }

  /** Nothing is in the way at dst, and its parent is an indexed directory. */
  ghost predicate CanPlace(ids: Entries, dst: Path) {
    && dst != [] && StoredPath(dst) && HasDirectory(ids, Parent(dst))
    && forall id :: id in ids ==> !(dst <= ids[id].path)
  }

  ghost predicate Disjoint(src: Path, dst: Path) {
    !(src <= dst) && !(dst <= src)
  }

  // ----- The invariant is kept -----

  lemma DirectoryKept(ids: Entries, ids': Entries, p: Path)
    requires HasDirectory(ids, p)
    requires forall d :: d in ids && ids[d].path == p ==> d in ids' && ids'[d].path == p && ids'[d].isDir == ids[d].isDir
    ensures HasDirectory(ids', p)
  {
  }

  lemma DeletedOk(ids: Entries, root: Id)
    requires NamespaceOk(ids) && root in ids
    ensures NamespaceOk(Deleted(ids, ids[root]))
    ensures forall id :: id in Deleted(ids, ids[root]) <==> id in ids && !(ids[root].path <= ids[id].path)
  {
    var r := Deleted(ids, ids[root]);
    forall id | id in ids ensures id in r <==> !(ids[root].path <= ids[id].path) {
      InSubtreeIsBelow(ids, root, id);
    }
    forall id | id in r ensures WellFormed(r, id) && ParentIndexed(r, id) {
      assert WellFormed(ids, id) && ParentIndexed(ids, id);
      assert Parent(ids[id].path) <= ids[id].path;
      DirectoryKept(ids, r, Parent(ids[id].path));
    }
    forall a, b | a in r && b in r ensures Unique(r, a, b) {
      assert Unique(ids, a, b);
    }
  }

  /** Replacing an entry by one of the same path and kind. */
  lemma UpdatedOk(ids: Entries, m: Meta)
    requires NamespaceOk(ids) && m.id in ids
    requires m.path == ids[m.id].path && m.isDir == ids[m.id].isDir && m.name == ids[m.id].name
    ensures NamespaceOk(ids[m.id := m])
  {
    var r := ids[m.id := m];
    forall id | id in r ensures WellFormed(r, id) && ParentIndexed(r, id) {
      assert WellFormed(ids, id) && ParentIndexed(ids, id);
      DirectoryKept(ids, r, Parent(ids[id].path));
    }
    forall a, b | a in r && b in r ensures Unique(r, a, b) {
      assert Unique(ids, a, b);
    }
  }

  lemma AddedOk(ids: Entries, m: Meta)
    requires NamespaceOk(ids) && m.id !in ids && m.id != NIL && CanPlace(ids, m.path) && m.name == Last(m.path)
    ensures NamespaceOk(ids[m.id := m])
  {
    var r := ids[m.id := m];
    forall id | id in r ensures WellFormed(r, id) && ParentIndexed(r, id) {
      if id != m.id { assert WellFormed(ids, id) && ParentIndexed(ids, id); }
      DirectoryKept(ids, r, Parent(r[id].path));
    }
    forall a, b | a in r && b in r ensures Unique(r, a, b) {
      if a != m.id && b != m.id { assert Unique(ids, a, b); }
    }
  }

  lemma StoredConcat(a: Path, b: Path, n: nat)
    requires StoredPath(a) && StoredPath(b) && n <= |b|
    ensures StoredPath(a + b[n..])
  {
  }

  /** Re-rooting keeps what an entry needs: a stored path, its name, and its parent's re-rooted path. */
  lemma RerootedPath(m: Meta, src: Path, dst: Path, now: int, id: Id)
    requires src <= m.path && dst != [] && src != [] && StoredPath(dst) && StoredPath(m.path) && m.path != []
    ensures
      var r := Rerooted(m, src, dst, now, id);
      StoredPath(r.path) && dst <= r.path && r.name == Last(r.path) && r.path[|dst|..] == m.path[|src|..] &&
      (m.path == src ==> r.path == dst) &&
      (m.path != src ==> src <= Parent(m.path) && Parent(r.path) == dst + TrimPrefix(Parent(m.path), src))
  {
    StoredConcat(dst, m.path, |src|);
    if m.path != src {
      assert Parent(m.path)[|src|..] == m.path[|src|..][..|m.path| - |src| - 1];
    }
  }

  lemma RelocatedParent(ids: Entries, src: Id, dst: Path, now: int, id: Id)
    requires NamespaceOk(ids) && src in ids && CanPlace(ids, dst) && Disjoint(ids[src].path, dst) && id in ids
    ensures ParentIndexed(Relocated(ids, ids[src], dst, now), id)
  {
    var r, s := Relocated(ids, ids[src], dst, now), ids[src].path;
    var p := ids[id].path;
    assert WellFormed(ids, src) && WellFormed(ids, id) && ParentIndexed(ids, id);
    InSubtreeIsBelow(ids, src, id);
    if s <= p {
      RerootedPath(ids[id], s, dst, now, id);
      if p == s {
        if Parent(dst) != [] {
          var d :| d in ids && ids[d].path == Parent(dst) && ids[d].isDir;
          InSubtreeIsBelow(ids, src, d);
          assert r[d] == ids[d];
        }
      } else {
        assert Parent(p) != [];
        var d :| d in ids && ids[d].path == Parent(p) && ids[d].isDir;
        InSubtreeIsBelow(ids, src, d);
        assert r[d].path == Parent(r[id].path);
      }
    } else if Parent(p) != [] {
      var d :| d in ids && ids[d].path == Parent(p) && ids[d].isDir;
      InSubtreeIsBelow(ids, src, d);
      assert r[d] == ids[d];
    }
  }

  lemma RelocatedOk(ids: Entries, src: Id, dst: Path, now: int)
    requires NamespaceOk(ids) && src in ids && CanPlace(ids, dst) && Disjoint(ids[src].path, dst)
    ensures NamespaceOk(Relocated(ids, ids[src], dst, now))
  {
    var r, s := Relocated(ids, ids[src], dst, now), ids[src].path;
    forall id | id in r ensures WellFormed(r, id) && ParentIndexed(r, id) {
      assert WellFormed(ids, src) && WellFormed(ids, id);
      InSubtreeIsBelow(ids, src, id);
      if s <= ids[id].path { RerootedPath(ids[id], s, dst, now, id); }
      RelocatedParent(ids, src, dst, now, id);
    }
    forall a, b | a in r && b in r ensures Unique(r, a, b) {
      RelocatedUnique(ids, src, dst, now, a, b);
    }
  }

  lemma RelocatedUnique(ids: Entries, src: Id, dst: Path, now: int, a: Id, b: Id)
    requires NamespaceOk(ids) && src in ids && CanPlace(ids, dst) && Disjoint(ids[src].path, dst) && a in ids && b in ids
    ensures Unique(Relocated(ids, ids[src], dst, now), a, b)
  {
    var s := ids[src].path;
    assert Unique(ids, a, b) && WellFormed(ids, a) && WellFormed(ids, b);
    InSubtreeIsBelow(ids, src, a);
    InSubtreeIsBelow(ids, src, b);
    RerootedApart(s, dst, ids[a].path, ids[b].path);
  }

  /** Re-rooted paths coincide only if the paths did, and never with a path outside the destination. */
  lemma RerootedApart(s: Path, dst: Path, p: Path, q: Path)
    ensures s <= p && s <= q && dst + TrimPrefix(p, s) == dst + TrimPrefix(q, s) ==> p == q
    ensures dst + TrimPrefix(p, s) == q ==> dst <= q
    ensures dst + TrimPrefix(q, s) == p ==> dst <= p
  {
    var a, b := TrimPrefix(p, s), TrimPrefix(q, s);
    if dst + a == dst + b {
      assert a == (dst + a)[|dst|..] && b == (dst + b)[|dst|..];
      assert s <= p && s <= q ==> p == s + a && q == s + b;
    }
  }

  /** A move gives the entries at or below its source, and no others, a new path, name and time; their IDs, kinds,
      sizes and comments stay. */
  lemma RelocatedIs(ids: Entries, src: Id, dst: Path, now: int)
    requires NamespaceOk(ids) && src in ids && dst != []
    ensures
      var r, s := Relocated(ids, ids[src], dst, now), ids[src].path;
      r.Keys == ids.Keys && (forall id :: id in ids && !(s <= ids[id].path) ==> r[id] == ids[id]) &&
      forall id :: id in ids && s <= ids[id].path ==> var m, p := ids[id], dst + ids[id].path[|s|..];
        r[id] == Meta(id, p, m.isDir, p[|p| - 1], m.size, now, m.comments)
  {
    forall id | id in ids ensures ids[id].id == id && (ids[src].path <= ids[id].path <==> InSubtree(ids[src], ids[id])) {
      assert WellFormed(ids, id);
      InSubtreeIsBelow(ids, src, id);
    }
  }

  /** A copy leaves every entry as it is and adds such an entry, under a fresh ID, for each one at or below its
      source. */
  lemma DuplicatedIs(ids: Entries, src: Id, dst: Path, now: int, origin: map<Id, Id>)
    requires NamespaceOk(ids) && src in ids && dst != [] && Numbers(ids, ids[src], origin)
    ensures
      var r, s := Duplicated(ids, ids[src], dst, now, origin), ids[src].path;
      r.Keys == ids.Keys + origin.Keys && (forall id :: id in ids ==> r[id] == ids[id])
      && (forall x :: x in origin ==> s <= ids[origin[x]].path && var m, p := ids[origin[x]], dst + ids[origin[x]].path[|s|..];
            r[x] == Meta(x, p, m.isDir, p[|p| - 1], m.size, now, m.comments))
      && (forall id :: id in ids && s <= ids[id].path ==> exists x :: x in origin && origin[x] == id)
  {
    forall id | id in ids ensures ids[src].path <= ids[id].path <==> InSubtree(ids[src], ids[id]) {
      InSubtreeIsBelow(ids, src, id);
    }
  }

  lemma DuplicatedOk(ids: Entries, src: Id, dst: Path, now: int, origin: map<Id, Id>)
    requires NamespaceOk(ids) && src in ids && CanPlace(ids, dst) && Disjoint(ids[src].path, dst)
    requires Numbers(ids, ids[src], origin)
    ensures NamespaceOk(Duplicated(ids, ids[src], dst, now, origin))
  {
    var r := Duplicated(ids, ids[src], dst, now, origin);
    forall x | x in r ensures WellFormed(r, x) && ParentIndexed(r, x) {
      DuplicatedEntry(ids, src, dst, now, origin, x);
    }
    forall a, b | a in r && b in r ensures Unique(r, a, b) {
      DuplicatedUnique(ids, src, dst, now, origin, a, b);
    }
  }

  lemma DuplicatedEntry(ids: Entries, src: Id, dst: Path, now: int, origin: map<Id, Id>, x: Id)
    requires NamespaceOk(ids) && src in ids && CanPlace(ids, dst) && Disjoint(ids[src].path, dst)
    requires Numbers(ids, ids[src], origin) && (x in ids || x in origin)
    ensures
      var r := Duplicated(ids, ids[src], dst, now, origin);
      WellFormed(r, x) && ParentIndexed(r, x)
  {
    var r := Duplicated(ids, ids[src], dst, now, origin);
    if x in origin {
      DuplicateHasParent(ids, src, dst, now, origin, x);
    } else {
      assert WellFormed(ids, x) && ParentIndexed(ids, x);
      DirectoryKept(ids, r, Parent(ids[x].path));
    }
  }

  lemma DuplicateHasParent(ids: Entries, src: Id, dst: Path, now: int, origin: map<Id, Id>, x: Id)
    requires NamespaceOk(ids) && src in ids && CanPlace(ids, dst) && Disjoint(ids[src].path, dst)
    requires Numbers(ids, ids[src], origin) && x in origin
    ensures
      var r := Duplicated(ids, ids[src], dst, now, origin);
      WellFormed(r, x) && ParentIndexed(r, x)
  {
    hide StoredPath, NamespaceOk;
    var r, o := Duplicated(ids, ids[src], dst, now, origin), origin[x];
    EntrySound(ids, src);
    EntrySound(ids, o);
    InSubtreeIsBelow(ids, src, o);
    RerootedPath(ids[o], ids[src].path, dst, now, x);
    if ids[o].path == ids[src].path {
      DirectoryKept(ids, r, Parent(dst));
    } else {
      var d :| d in ids && ids[d].path == Parent(ids[o].path) && ids[d].isDir;
      InSubtreeIsBelow(ids, src, d);
      var y :| y in origin && origin[y] == d;
      assert r[y].path == Parent(r[x].path) && r[y].isDir;
    }
  }

  lemma EntrySound(ids: Entries, id: Id)
    requires NamespaceOk(ids) && id in ids
    ensures WellFormed(ids, id) && ParentIndexed(ids, id)
  {
  }

  lemma DuplicatedUnique(ids: Entries, src: Id, dst: Path, now: int, origin: map<Id, Id>, a: Id, b: Id)
    requires NamespaceOk(ids) && src in ids && CanPlace(ids, dst) && Disjoint(ids[src].path, dst)
    requires Numbers(ids, ids[src], origin) && (a in ids || a in origin) && (b in ids || b in origin)
    ensures Unique(Duplicated(ids, ids[src], dst, now, origin), a, b)
  {
    var s := ids[src].path;
    var oa, ob := if a in origin then origin[a] else a, if b in origin then origin[b] else b;
    assert Unique(ids, oa, ob);
    if a in origin { InSubtreeIsBelow(ids, src, oa); }
    if b in origin { InSubtreeIsBelow(ids, src, ob); }
    RerootedApart(s, dst, ids[oa].path, ids[ob].path);
  }

  /** CheckReplacement: an expectation, when given, must name the target or its absence. */
  predicate CheckReplacement(target: Option<Id>, replace: Option<Id>) {
    match replace
    case None => true
    case Some(expected) =>
      match target
      case None => expected == NIL
      case Some(id) => expected != NIL && id == expected
  }

  /** Above every number of a finite set: there is always a fresh ID. */
  lemma Bound(numbers: set<nat>) returns (n: nat)
    ensures forall x :: x in numbers ==> x < n
    decreases |numbers|
  {
    n := 0;
    if numbers != {} {
      var x :| x in numbers;
      n := Bound(numbers - {x});
      n := if n > x then n else x + 1;
      assert forall y :: y in numbers ==> y == x || y in numbers - {x};
    }
  }
}
