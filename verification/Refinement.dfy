/** Both drivers implement one namespace: on the spelling of a namespace, Badger's key-by-key transfers do
    what the namespace says, and what LocalStorage accepts Badger accepts. */
module Refinement {
  import opened Paths
  import opened Disk
  import opened Namespace
  import opened Store
  import opened Effects
  import opened EntryMaps
  import opened Restoring
  import opened Backups
  import opened IndexFiles
  import opened Blobs
  import opened BadgerState
  import opened BadgerTransactions
  import opened BadgerDriver

  // ----- Spelling a namespace with keys -----

  function KeyString(m: Meta): string {
    Stored(m.path, m.isDir)
  }

  ghost predicate SpeltAt(t: Db, ids: Entries, id: Id) {
    id in ids ==>
      && KeyString(ids[id]) in t.files && t.files[KeyString(ids[id])].meta == RowOf(ids[id])
      && id in t.index && t.index[id] == KeyString(ids[id])
  }

  ghost predicate KeySpelt(t: Db, ids: Entries, k: string) {
    k in t.files ==> exists id :: id in ids && KeyString(ids[id]) == k
  }

  /** The meta keys are the stored paths of the entries, and the index keys are their inverse. */
  ghost predicate Spelt(t: Db, ids: Entries) {
    && (forall id {:trigger SpeltAt(t, ids, id)} :: SpeltAt(t, ids, id))
    && (forall k {:trigger KeySpelt(t, ids, k)} :: KeySpelt(t, ids, k))
    && t.index.Keys == ids.Keys
  }

  /** Entries with sensible paths. */
  ghost predicate Sensibles(ids: Entries) {
    forall id :: id in ids ==> ids[id].id == id && ids[id].path != [] && StoredPath(ids[id].path)
  }

  ghost predicate KeysDiffer(ids: Entries, a: Id, b: Id)
    requires a in ids && b in ids
  {
    a != b ==> KeyString(ids[a]) != KeyString(ids[b])
  }

  lemma NamespaceSensible(ids: Entries)
    requires NamespaceOk(ids)
    ensures Sensibles(ids)
  {
    forall id | id in ids ensures ids[id].id == id && ids[id].path != [] && StoredPath(ids[id].path) {
      assert WellFormed(ids, id);
    }
  }

  /** Stored paths determine the path and the kind. */
  lemma KeyStringInjective(a: Meta, b: Meta)
    requires CleanPath(a.path) && CleanPath(b.path) && a.path != [] && b.path != []
    ensures KeyString(a) == KeyString(b) <==> a.path == b.path && a.isDir == b.isDir
  {
    hide Render;
    StoredPrefix(a.path, b.path, b.isDir);
    StoredPrefix(b.path, a.path, a.isDir);
    if a.isDir == b.isDir {
      if KeyString(a) == KeyString(b) { SameRowSamePath(a, b); }
    } else {
      KindsDiffer(a, b);
    }
  }

  /** The stored path of a file does not end in a slash. */
  lemma KindsDiffer(a: Meta, b: Meta)
    requires CleanPath(a.path) && CleanPath(b.path) && a.path != [] && b.path != [] && a.isDir != b.isDir
    ensures KeyString(a) != KeyString(b)
  {
    hide Render;
    var file, dir := if a.isDir then b else a, if a.isDir then a else b;
    NoSlashAtEnd(file.path);
    assert KeyString(file) == Render(file.path);
    assert KeyString(dir)[|KeyString(dir)| - 1] == '/';
  }

  lemma NoSlashAtEnd(p: Path)
    requires CleanPath(p) && p != []
    ensures Render(p) != "" && Render(p)[|Render(p)| - 1] != '/'
  {
    RenderLast(p);
    assert CleanName(Last(p));
    var n := Last(p);
    assert n[|n| - 1] in n;
  }

  /** Being in a subtree, tested on strings. */
  lemma InTreeIsInSubtree(root: Meta, m: Meta, rootRecord: Record, r: Record)
    requires StoredPath(root.path) && StoredPath(m.path) && root.path != [] && m.path != []
    requires rootRecord.meta == RowOf(root) && r.meta == RowOf(m)
    requires root.id == m.id <==> root.path == m.path && root.isDir == m.isDir
    ensures InTree(rootRecord, KeyString(m), r) <==> InSubtree(root, m)
  {
    hide Render;
    StoredIsClean(root.path);
    StoredIsClean(m.path);
    KeyStringInjective(root, m);
    if root.isDir { StoredPrefix(root.path, m.path, m.isDir); }
  }

  lemma Distinct(ids: Entries, a: Id, b: Id)
    requires NamespaceOk(ids) && a in ids && b in ids
    ensures KeysDiffer(ids, a, b)
    ensures a == b <==> ids[a].path == ids[b].path && ids[a].isDir == ids[b].isDir
  {
    assert WellFormed(ids, a) && WellFormed(ids, b) && Unique(ids, a, b);
    KeyStringInjective(ids[a], ids[b]);
  }

  // ----- Looking up -----

  /** The record of the entry whose ID it carries. */
  ghost predicate RecordOf(t: Db, ids: Entries, r: Record) {
    && r.meta.id in ids && r.meta == RowOf(ids[r.meta.id])
    && KeyString(ids[r.meta.id]) in t.files && t.files[KeyString(ids[r.meta.id])] == r
  }

  /** findByPath finds the entry at the path, whatever its kind. */
  lemma FindByPathFinds(t: Db, ids: Entries, p: Path, isDir: bool)
    requires NamespaceOk(ids) && Spelt(t, ids) && CleanPath(p) && p != []
    ensures
      var found := FindByPath(t.files, TrimSlash(Stored(p, isDir)));
      (found.None? <==> forall id :: id in ids ==> ids[id].path != p) &&
      (found.Some? ==> RecordOf(t, ids, found.value) && ids[found.value.meta.id].path == p)
  {
    hide Render;
    NamespaceSensible(ids);
    NoSlashAtEnd(p);
    var file, dir := Meta(NIL, p, false, "", 0, 0, ""), Meta(NIL, p, true, "", 0, 0, "");
    assert KeyString(file) == Render(p) && KeyString(dir) == Render(p) + "/";
    assert TrimSlash(Stored(p, isDir)) == Render(p);
    NotRoot(p);
    forall id | id in ids
      ensures ids[id].path == p ==> KeyString(ids[id]) == KeyString(file) || KeyString(ids[id]) == KeyString(dir)
    {
    }
    forall id ensures SpeltAt(t, ids, id) { }
    KeyNames(t, ids, file);
    KeyNames(t, ids, dir);
  }

  /** A meta key is there exactly for an entry of that path and kind. */
  lemma KeyNames(t: Db, ids: Entries, m: Meta)
    requires Sensibles(ids) && Spelt(t, ids) && CleanPath(m.path) && m.path != []
    ensures KeyString(m) in t.files ==>
      var id := t.files[KeyString(m)].meta.id;
      id in ids && ids[id].path == m.path && ids[id].isDir == m.isDir && t.files[KeyString(m)].meta == RowOf(ids[id])
    ensures KeyString(m) !in t.files ==> forall id :: id in ids ==> ids[id].path != m.path || ids[id].isDir != m.isDir
  {
    hide Render;
    if KeyString(m) in t.files {
      assert KeySpelt(t, ids, KeyString(m));
      var id :| id in ids && KeyString(ids[id]) == KeyString(m);
      assert SpeltAt(t, ids, id);
      KeyStringInjective(ids[id], m);
    } else {
      forall id | id in ids ensures ids[id].path != m.path || ids[id].isDir != m.isDir {
        assert SpeltAt(t, ids, id);
        KeyStringInjective(ids[id], m);
      }
    }
  }

  // ----- Deleting a subtree -----

  /** The items are the records of the root's subtree. */
  ghost predicate Takes(files: Files, root: Record, items: seq<Record>) {
    Drawn(files, items) &&
    forall k {:trigger Includes(items, k)} :: k in files ==> (Includes(items, k) <==> InTree(root, k, files[k]))
  }

  /** Erasing the records of a subtree is deleting it from the namespace. */
  lemma EraseRefines(t: Db, ids: Entries, root: Id, items: seq<Record>, r: Db)
    requires NamespaceOk(ids) && Spelt(t, ids) && root in ids
    requires KeyString(ids[root]) in t.files && Takes(t.files, t.files[KeyString(ids[root])], items)
    requires Erased(t, items, r)
    ensures Spelt(r, Deleted(ids, ids[root]))
  {
    hide Render;
    NamespaceSensible(ids);
    var left := Deleted(ids, ids[root]);
    forall id ensures SpeltAt(r, left, id) && (id in r.index <==> id in left) {
      if id in ids {
        VictimIff(t, ids, root, items, id);
        assert SpeltAt(t, ids, id) && ErasedAt(t, items, r, KeyString(ids[id])) && UnindexedAt(t, items, r, id);
      } else {
        assert UnindexedAt(t, items, r, id);
      }
    }
    forall k ensures KeySpelt(r, left, k) {
      assert KeySpelt(t, ids, k) && ErasedAt(t, items, r, k);
      if k in r.files {
        var id :| id in ids && KeyString(ids[id]) == k;
        VictimIff(t, ids, root, items, id);
      }
    }
  }

  /** The records gathered are those of the entries in the subtree. */
  lemma VictimIff(t: Db, ids: Entries, root: Id, items: seq<Record>, id: Id)
    requires NamespaceOk(ids) && Spelt(t, ids) && root in ids && id in ids
    requires KeyString(ids[root]) in t.files && Takes(t.files, t.files[KeyString(ids[root])], items)
    ensures Includes(items, KeyString(ids[id])) <==> InSubtree(ids[root], ids[id])
    ensures IncludesId(items, id) <==> InSubtree(ids[root], ids[id])
  {
    hide Render;
    NamespaceSensible(ids);
    assert SpeltAt(t, ids, root) && SpeltAt(t, ids, id);
    Distinct(ids, root, id);
    InTreeIsInSubtree(ids[root], ids[id], t.files[KeyString(ids[root])], t.files[KeyString(ids[id])]);
    if IncludesId(items, id) {
      var i :| 0 <= i < |items| && items[i].meta.id == id;
      IdOfKey(t, ids, items[i].meta.path);
    }
    if Includes(items, KeyString(ids[id])) {
      var i :| 0 <= i < |items| && items[i].meta.path == KeyString(ids[id]);
      assert items[i].meta.id == id;
    }
  }

  /** A record's ID names the entry its key spells. */
  lemma IdOfKey(t: Db, ids: Entries, k: string)
    requires Sensibles(ids) && Spelt(t, ids) && k in t.files
    ensures t.files[k].meta.id in ids && KeyString(ids[t.files[k].meta.id]) == k && t.files[k].meta == RowOf(ids[t.files[k].meta.id])
  {
    hide Render;
    assert KeySpelt(t, ids, k);
    var id :| id in ids && KeyString(ids[id]) == k;
    assert SpeltAt(t, ids, id);
  }

  // ----- The strings of a transfer -----

  lemma {:induction false} CleanNames(parts: seq<string>, names: Path)
    requires CleanPath(names)
    ensures Clean(parts + names) == Clean(parts) + names
  {
    if names == [] {
      assert parts + names == parts;
    } else {
      CleanNames(parts, Parent(names));
      assert (parts + names)[..|parts + names| - 1] == parts + Parent(names);
      assert CleanName(Last(names)) && (parts + names)[|parts + names| - 1] == Last(names);
      assert Parent(names) + [Last(names)] == names;
    }
  }

  /** The spelling of a stored path reads back. */
  lemma StoredCleans(p: Path, isDir: bool)
    requires CleanPath(p) && p != []
    ensures Clean(Split(Stored(p, isDir))) == p
    ensures Split(Stored(p, isDir)) == [""] + p + (if isDir then [""] else [])
  {
    hide Render;
    SplitRender(p);
    CleanKeeps(p);
    CleanLeading(p);
    CleanTrailing([""] + p);
    if isDir {
      SplitTrailingSlash(Render(p));
    } else {
      assert Stored(p, false) == Render(p);
      assert [""] + p + [] == [""] + p;
    }
  }

  lemma BaseNameIsLast(p: Path, isDir: bool)
    requires StoredPath(p) && p != []
    ensures BaseName(Stored(p, isDir)) == Last(p)
  {
    hide Stored, Split;
    StoredCleans(p, isDir);
    EmptySplit();
    assert StoredName(Last(p));
    var parts := [""] + p;
    assert LastPart(parts) == Last(p);
    if isDir {
      assert (parts + [""])[..|parts|] == parts;
    } else {
      assert parts + [] == parts;
    }
  }

  /** The path of a child after a move of its directory. */
  lemma ChildPathIsRerooted(r: Record, s: Path, d: Path, p: Path, isDir: bool)
    requires CleanPath(s) && s != [] && CleanPath(d) && d != [] && CleanPath(p) && s < p
    requires r.meta.path == Stored(p, isDir) && r.meta.isDir == isDir
    ensures ChildPath(r, WithSlash(Stored(s, true)), Stored(d, true)) == Stored(d + p[|s|..], isDir)
  {
    hide Render, Clean, Split;
    var rest, slash := p[|s|..], if isDir then "/" else "";
    var prefix := Stored(s, true);
    SuffixOfStored(s, p, isDir);
    assert WithSlash(prefix) == prefix;
    var rel := r.meta.path[|prefix|..];
    assert Stored(d, true) + "/" + rel == Render(d) + "/" + (Render(rest) + slash);
    JoinedParts(d, rest, isDir);
    StoredConcatPath(d, p, |s|);
    if isDir {
      NoSlashAtEnd(d + rest);
      assert Stored(d + rest, false) == Render(d + rest);
    }
  }

  lemma StoredConcatPath(d: Path, p: Path, n: nat)
    requires CleanPath(d) && d != [] && CleanPath(p) && n <= |p|
    ensures CleanPath(d + p[n..]) && d + p[n..] != []
  {
  }

  /** What is left of a stored path after the path of a directory above it. */
  lemma SuffixOfStored(s: Path, p: Path, isDir: bool)
    requires CleanPath(s) && s != [] && CleanPath(p) && s < p
    ensures var prefix, rest := Stored(s, true), p[|s|..];
      prefix <= Stored(p, isDir) && "/" + Stored(p, isDir)[|prefix|..] == Render(rest) + (if isDir then "/" else "")
  {
    hide Render, Stored;
    var rest, slash := p[|s|..], if isDir then "/" else "";
    RenderAppend(s, rest);
    assert p == s + rest && rest != [];
    RenderHead(rest);
    StoredText(p, isDir);
    StoredText(s, true);
    SuffixText(Render(s), Render(rest)[1..], slash);
  }

  lemma RenderHead(p: Path)
    requires p != []
    ensures Render(p) != "" && Render(p) == "/" + Render(p)[1..]
  {
  }

  lemma SuffixText(a: string, tail: string, slash: string)
    ensures a + "/" <= a + ("/" + tail) + slash
    ensures "/" + (a + ("/" + tail) + slash)[|a + "/"|..] == ("/" + tail) + slash
  {
    assert a + ("/" + tail) + slash == (a + "/") + (tail + slash);
  }

  lemma JoinedParts(d: Path, rest: Path, isDir: bool)
    requires CleanPath(d) && d != [] && CleanPath(rest) && rest != []
    ensures Clean(Split(Render(d) + "/" + (Render(rest) + (if isDir then "/" else "")))) == d + rest
  {
    hide Render, Split, Stored, Clean;
    var b := Stored(rest, isDir);
    StoredText(rest, isDir);
    StoredText(d, false);
    SplitConcat(Render(d), b);
    StoredCleans(d, false);
    StoredCleans(rest, isDir);
    var parts := [""] + d + [""];
    CleanTrailing([""] + d);
    CleanNames(parts, rest);
    CleanTrailing(parts + rest);
    assert [""] + d + [] == [""] + d;
    assert Render(d) + "" == Render(d);
    var tail := if isDir then [""] else [];
    assert ([""] + d) + ([""] + rest + tail) == parts + rest + tail;
    assert parts + rest + [] == parts + rest;
  }

  lemma StoredText(p: Path, isDir: bool)
    requires p != []
    ensures Stored(p, isDir) == Render(p) + (if isDir then "/" else "")
  {
  }

  // ----- What is left after the target has gone -----

  /** What the namespace knows when a transfer has been accepted. */
  ghost predicate Accepts(ids: Entries, src: Id, d: Path, target: Option<Meta>) {
    && NamespaceOk(ids) && src in ids && d != [] && StoredPath(d)
    && HasDirectory(ids, Parent(d)) && Disjoint(ids[src].path, d)
    && match target
       case None => Vacant(ids, d)
       case Some(m) => m.id in ids && ids[m.id] == m && m.path == d
  }

  lemma AcceptedCarries(ids: Entries, src: Id, d: Path, target: Option<Meta>)
    requires Accepts(ids, src, d, target)
    ensures Carrying(Remaining(ids, target), ids[src], d)
    ensures Remaining(ids, target)[src] == ids[src]
  {
    assert WellFormed(ids, src);
    match target
    case None =>
      forall id | id in ids ensures !(d <= ids[id].path) {
        if d <= ids[id].path && d != ids[id].path {
          AncestorIndexed(ids, id, d);
        }
      }
    case Some(m) =>
      DeletedOk(ids, m.id);
      InSubtreeIsBelow(ids, m.id, src);
      assert Parent(d) <= d;
      if Parent(d) != [] {
        var x :| x in ids && ids[x].path == Parent(d) && ids[x].isDir;
        assert x in Deleted(ids, m);
      }
  }

  lemma NothingErasedRefines(t: Db, ids: Entries, t1: Db)
    requires Spelt(t, ids) && Erased(t, [], t1)
    ensures Spelt(t1, ids)
  {
    hide Render;
    forall id ensures SpeltAt(t1, ids, id) && (id in t1.index <==> id in ids) {
      assert SpeltAt(t, ids, id) && UnindexedAt(t, [], t1, id);
      if id in ids { assert ErasedAt(t, [], t1, KeyString(ids[id])); }
    }
    forall k ensures KeySpelt(t1, ids, k) {
      assert KeySpelt(t, ids, k) && ErasedAt(t, [], t1, k);
    }
  }

  lemma ClearedRefines(t: Db, ids: Entries, src: Id, d: Path, isDir: bool, target: Option<Meta>,
      victims: seq<Record>, t1: Db)
    requires Accepts(ids, src, d, target) && Spelt(t, ids)
    requires Cleared(t, FindByPath(t.files, TrimSlash(Stored(d, isDir))), victims, t1)
    ensures Spelt(t1, Remaining(ids, target))
  {
    hide Render;
    FindByPathFinds(t, ids, d, isDir);
    match target
    case None =>
      NothingErasedRefines(t, ids, t1);
    case Some(m) =>
      var found := FindByPath(t.files, TrimSlash(Stored(d, isDir))).value;
      assert Unique(ids, m.id, found.meta.id);
      EraseRefines(t, ids, m.id, victims, t1);
  }

  // ----- Moving one key -----

  /** Moving a record to a free key re-spells its entry. */
  lemma MoveItemRefines(t: Db, e: Entries, id: Id, r: Record, m: Meta, now: int)
    requires Spelt(t, e) && id in e && r.meta.id == id && r.meta.path == KeyString(e[id])
    requires MovedRecord(r, KeyString(m), now).meta == RowOf(m)
    requires forall x :: x in e && x != id ==> KeyString(e[x]) != KeyString(m) && KeyString(e[x]) != KeyString(e[id])
    ensures Spelt(MoveItem(t, r, KeyString(m), now), e[id := m])
  {
    hide Render, BaseName;
    var t', e' := MoveItem(t, r, KeyString(m), now), e[id := m];
    assert SpeltAt(t, e, id);
    forall x ensures SpeltAt(t', e', x) {
      assert SpeltAt(t, e, x);
    }
    forall k ensures KeySpelt(t', e', k) {
      assert KeySpelt(t, e, k);
      if k == KeyString(m) {
        assert KeyString(e'[id]) == k;
      } else if k in t'.files {
        var x :| x in e && KeyString(e[x]) == k;
        assert KeyString(e'[x]) == k;
      }
    }
  }

  lemma MovedRow(r: Record, m: Meta, src: Path, d: Path, now: int)
    requires r.meta == RowOf(m) && src <= m.path && d != [] && src != [] && StoredPath(d) && StoredPath(m.path) && m.path != []
    ensures
      var m' := Rerooted(m, src, d, now, m.id);
      MovedRecord(r, KeyString(m'), now).meta == RowOf(m') && StoredPath(m'.path) && m'.path != []
  {
    hide Stored, BaseName;
    RerootedPath(m, src, d, now, m.id);
    var m' := Rerooted(m, src, d, now, m.id);
    BaseNameIsLast(m'.path, m'.isDir);
  }

  /** The keys of partly carried entries stay apart. */
  lemma CarriedKeysApart(left: Entries, src: Meta, d: Path, now: int, done: set<Id>, e: Entries, id: Id, x: Id)
    requires Carrying(left, src, d) && Carried(left, src, d, now, done, e)
    requires forall y :: y in done ==> y in left && InSubtree(src, left[y])
    requires id in left && id !in done && InSubtree(src, left[id]) && x in left && x != id
    ensures KeyString(e[x]) != KeyString(Rerooted(left[id], src.path, d, now, id))
    ensures KeyString(e[x]) != KeyString(left[id])
  {
    hide Stored;
    assert WellFormed(left, id) && WellFormed(left, x) && WellFormed(left, src.id) && Unique(left, x, id);
    var m := Rerooted(left[id], src.path, d, now, id);
    InSubtreeIsBelow(left, src.id, id);
    RerootedPath(left[id], src.path, d, now, id);
    CarriedApart(left, src, d, now, id, x);
    CarriedApart(left, src, d, now, if x in done then x else id, id);
    if x in done {
      InSubtreeIsBelow(left, src.id, x);
      RerootedPath(left[x], src.path, d, now, x);
    }
    KeyStringInjective(e[x], m);
    KeyStringInjective(e[x], left[id]);
  }

  // ----- Move -----

  /** The children gathered by Move are the entries strictly below the source. */
  ghost predicate ChildrenOf(left: Entries, src: Meta, children: seq<Record>) {
    && (forall i :: 0 <= i < |children| ==>
          children[i].meta.id in left && children[i].meta == RowOf(left[children[i].meta.id]) && src.path < left[children[i].meta.id].path)
    && (forall i, j :: 0 <= i < j < |children| ==> children[i].meta.id != children[j].meta.id)
    && (forall id {:trigger IncludesId(children, id)} :: id in left && src.path < left[id].path ==> IncludesId(children, id))
  }

  lemma {:induction false} MoveAllRefines(t: Db, left: Entries, src: Meta, d: Path, now: int, children: seq<Record>,
      n: nat, e0: Entries)
    returns (e: Entries, done: set<Id>)
    requires Carrying(left, src, d) && src.isDir && ChildrenOf(left, src, children) && n <= |children|
    requires src.id in left && left[src.id] == src
    requires Carried(left, src, d, now, {src.id}, e0) && Spelt(t, e0)
    ensures forall id :: id in done <==> id == src.id || IncludesId(children[..n], id)
    ensures Carried(left, src, d, now, done, e) && Spelt(MoveAll(t, children, n, WithSlash(Stored(src.path, true)), Stored(d, true), now), e)
    decreases n
  {
    hide Stored, BaseName, ChildPath, WithSlash, Carrying, Spelt, Carried;
    if n == 0 {
      e, done := e0, {src.id};
    } else {
      var j: nat := n - 1;
      e, done := MoveAllRefines(t, left, src, d, now, children, j, e0);
      var child := children[j];
      assert forall y :: y in done ==> y == src.id || IncludesId(children[..j], y);
      CarryingNames(left, src, d, child.meta.id);
      MoveNextRefines(MoveAll(t, children, j, WithSlash(Stored(src.path, true)), Stored(d, true), now), left, src, d, now, done, e, child);
      e := e[child.meta.id := Rerooted(left[child.meta.id], src.path, d, now, child.meta.id)];
      done := done + {child.meta.id};
      assert children[..n] == children[..j] + [child];
      IncludesNext(children[..j], child);
    }
  }

  lemma MoveNextRefines(t: Db, left: Entries, src: Meta, d: Path, now: int, done: set<Id>, e: Entries, child: Record)
    requires Carrying(left, src, d) && src.isDir && Carried(left, src, d, now, done, e) && Spelt(t, e)
    requires forall y :: y in done ==> y in left && src.path <= left[y].path
    requires child.meta.id in left && child.meta == RowOf(left[child.meta.id]) && src.path < left[child.meta.id].path
    requires child.meta.id !in done
    ensures
      var id := child.meta.id;
      var e' := e[id := Rerooted(left[id], src.path, d, now, id)];
      Carried(left, src, d, now, done + {id}, e') &&
      Spelt(MoveItem(t, child, ChildPath(child, WithSlash(Stored(src.path, true)), Stored(d, true)), now), e')
  {
    hide Stored, BaseName, ChildPath, WithSlash, NamespaceOk, CanPlace, Spelt;
    var id := child.meta.id;
    var m := Rerooted(left[id], src.path, d, now, id);
    CarryingNames(left, src, d, id);
    forall y | y in done ensures y in left && InSubtree(src, left[y]) {
      InSubtreeIsBelow(left, src.id, y);
    }
    InSubtreeIsBelow(left, src.id, id);
    MovedRow(child, left[id], src.path, d, now);
    ChildPathIsRerooted(child, src.path, d, left[id].path, left[id].isDir);
    forall x | x in e && x != id ensures KeyString(e[x]) != KeyString(m) && KeyString(e[x]) != KeyString(e[id]) {
      CarriedKeysApart(left, src, d, now, done, e, id, x);
    }
    MoveItemRefines(t, e, id, child, m, now);
  }

  lemma CarryingNames(left: Entries, src: Meta, d: Path, id: Id)
    requires Carrying(left, src, d) && id in left
    ensures d != [] && StoredPath(d) && StoredPath(src.path) && src.path != []
    ensures left[id].id == id && StoredPath(left[id].path) && left[id].path != []
  {
    assert WellFormed(left, id) && WellFormed(left, src.id);
  }

  /** The scan that follows the move of the directory itself finds the entries below it. */
  lemma ScanFindsChildren(t: Db, left: Entries, src: Meta, d: Path, now: int, e: Entries, children: seq<Record>)
    requires Carrying(left, src, d) && src.isDir && Carried(left, src, d, now, {src.id}, e) && Spelt(t, e)
    requires Under(t.files, WithSlash(Stored(src.path, true)), children)
    ensures ChildrenOf(left, src, children)
  {
    hide Stored, BaseName, ChildPath, Render, Carrying, Carried, Spelt;
    CarriedSensible(left, src, d, now, e);
    EndsInSlash(src.path);
    CarriedKeys(left, src, d, now, e);
    forall i | 0 <= i < |children|
      ensures children[i].meta.id in left && children[i].meta == RowOf(left[children[i].meta.id]) && src.path < left[children[i].meta.id].path
    {
      var k := children[i].meta.path;
      assert Includes(children, k);
      IdOfKey(t, e, k);
      BelowSourceIff(left, src, d, now, e, children[i].meta.id);
    }
    forall i, j | 0 <= i < j < |children| ensures children[i].meta.id != children[j].meta.id {
      assert children[i].meta.path != children[j].meta.path;
      IdOfKey(t, e, children[i].meta.path);
      IdOfKey(t, e, children[j].meta.path);
    }
    forall id | id in left && src.path < left[id].path ensures IncludesId(children, id) {
      ChildIncluded(t, left, src, d, now, e, children, id);
    }
  }

  lemma CarriedKeys(left: Entries, src: Meta, d: Path, now: int, e: Entries)
    requires Carrying(left, src, d) && Carried(left, src, d, now, {src.id}, e)
    ensures e.Keys == left.Keys
  {
  }

  lemma ChildIncluded(t: Db, left: Entries, src: Meta, d: Path, now: int, e: Entries, children: seq<Record>, id: Id)
    requires Carrying(left, src, d) && src.isDir && Carried(left, src, d, now, {src.id}, e) && Spelt(t, e)
    requires Under(t.files, Stored(src.path, true), children) && id in left && src.path < left[id].path
    ensures IncludesId(children, id)
  {
    hide Stored, Render, CanPlace, NamespaceOk;
    assert SpeltAt(t, e, id);
    CarryingNames(left, src, d, id);
    BelowSourceIff(left, src, d, now, e, id);
    assert Includes(children, KeyString(e[id]));
    var i :| 0 <= i < |children| && children[i].meta.path == KeyString(e[id]);
    assert children[i].meta.id == id;
  }

  lemma EndsInSlash(p: Path)
    ensures WithSlash(Stored(p, true)) == Stored(p, true)
  {
    hide Render;
  }

  lemma CarriedSensible(left: Entries, src: Meta, d: Path, now: int, e: Entries)
    requires Carrying(left, src, d) && Carried(left, src, d, now, {src.id}, e)
    ensures Sensibles(e)
  {
    forall id | id in e ensures e[id].id == id && e[id].path != [] && StoredPath(e[id].path) {
      CarryingNames(left, src, d, id);
      if id == src.id { RerootedPath(left[id], src.path, d, now, id); }
    }
  }

  lemma BelowSourceIff(left: Entries, src: Meta, d: Path, now: int, e: Entries, id: Id)
    requires Carrying(left, src, d) && src.isDir && Carried(left, src, d, now, {src.id}, e) && id in left
    ensures Stored(src.path, true) <= KeyString(e[id]) <==> src.path < left[id].path
    ensures src.path < left[id].path ==> e[id] == left[id]
    ensures id != src.id ==> e[id] == left[id]
  {
    hide Stored;
    CarryingNames(left, src, d, id);
    CarryingNames(left, src, d, src.id);
    StoredIsClean(src.path);
    if id == src.id {
      RerootedPath(left[id], src.path, d, now, id);
      StoredIsClean(e[id].path);
      assert e[id].path == d;
      StoredPrefix(src.path, e[id].path, e[id].isDir);
    } else {
      StoredIsClean(left[id].path);
      assert Unique(left, id, src.id);
      StoredPrefix(src.path, left[id].path, left[id].isDir);
    }
  }

  /** On the spelling of a namespace, Badger's move is the move of the namespace: every ID keeps its place in
      the subtree, the replaced subtree is gone, and index and meta keys stay inverse to each other. */
  lemma MoveRefines(t: Db, ids: Entries, id: Id, value: string, replace: Option<Id>, now: int, m: Moving, r: Db,
      d: Path, target: Option<Meta>)
    requires Spelt(t, ids) && Accepts(ids, id, d, target) && Moves(t, id, value, replace, now, m, r)
    requires m.dst == Stored(d, ids[id].isDir)
    ensures Spelt(r, Relocated(Remaining(ids, target), ids[id], d, now))
  {
    hide Stored, BaseName, ChildPath, Render, TransferPath, Clean, Split, MoveAll, WithSlash, TrimSlash;
    var left, src := Remaining(ids, target), ids[id];
    assert SpeltAt(t, ids, id);
    assert m.src == t.files[KeyString(src)];
    var t1 :| MovesVia(t, now, m, t1, r);
    ClearedRefines(t, ids, id, d, src.isDir, target, m.victims, t1);
    AcceptedCarries(ids, id, d, target);
    MoveViaRefines(t, left, src, d, now, m, t1, r);
  }

  lemma MoveViaRefines(t: Db, left: Entries, src: Meta, d: Path, now: int, m: Moving, t1: Db, r: Db)
    requires Carrying(left, src, d) && left[src.id] == src && Spelt(t1, left) && MovesVia(t, now, m, t1, r)
    requires m.src.meta == RowOf(src) && m.dst == Stored(d, src.isDir)
    ensures Spelt(r, Relocated(left, src, d, now))
  {
    hide Stored, BaseName, ChildPath, Render, MoveAll, WithSlash, TrimSlash, Spelt, NamespaceOk;
    CarryingNames(left, src, d, src.id);
    MovedRow(m.src, src, src.path, d, now);
    var t2, e := MoveItem(t1, m.src, m.dst, now), left[src.id := Rerooted(src, src.path, d, now, src.id)];
    RerootedSelf(src, d, now);
    assert Carried(left, src, d, now, {}, left);
    SelfInSubtree(left, src);
    forall x | x in left && x != src.id
      ensures KeyString(left[x]) != KeyString(Rerooted(src, src.path, d, now, src.id)) && KeyString(left[x]) != KeyString(src)
    {
      CarriedKeysApart(left, src, d, now, {}, left, src.id, x);
    }
    MoveItemRefines(t1, left, src.id, m.src, Rerooted(src, src.path, d, now, src.id), now);
    if src.isDir {
      ScanFindsChildren(t2, left, src, d, now, e, m.children);
      var e', done := MoveAllRefines(t2, left, src, d, now, m.children, |m.children|, e);
      assert m.children[..|m.children|] == m.children;
      forall x | x in left ensures x in done <==> InSubtree(src, left[x]) {
        InSubtreeIsBelow(left, src.id, x);
        SamePathSameId(left, src.id, x);
        if IncludesId(m.children, x) {
          var i :| 0 <= i < |m.children| && m.children[i].meta.id == x;
        }
      }
      CarriedIsRelocated(left, src, d, now, done, e');
    } else {
      forall x | x in left ensures x in {src.id} <==> InSubtree(src, left[x]) {
        CarryingNames(left, src, d, x);
      }
      CarriedIsRelocated(left, src, d, now, {src.id}, e);
    }
  }

  lemma SelfInSubtree(left: Entries, src: Meta)
    requires src.id in left && left[src.id] == src
    ensures InSubtree(src, left[src.id])
  {
  }

  lemma SamePathSameId(left: Entries, a: Id, b: Id)
    requires NamespaceOk(left) && a in left && b in left
    ensures left[a].path == left[b].path ==> a == b
  {
    assert Unique(left, a, b);
  }

  lemma RerootedSelf(src: Meta, d: Path, now: int)
    requires d != []
    ensures Rerooted(src, src.path, d, now, src.id).path == d && Rerooted(src, src.path, d, now, src.id).isDir == src.isDir
  {
    assert d + src.path[|src.path|..] == d;
  }

  // ----- Copy -----

  /** A new record spells a new entry. */
  lemma AddRecordRefines(t: Db, e: Entries, r: Record, m: Meta)
    requires Spelt(t, e) && r.meta == RowOf(m) && m.id !in e
    requires forall x :: x in e ==> KeyString(e[x]) != KeyString(m)
    ensures Spelt(AddRecord(t, r), e[m.id := m])
  {
    hide Stored;
    var t', e' := AddRecord(t, r), e[m.id := m];
    forall x ensures SpeltAt(t', e', x) {
      assert SpeltAt(t, e, x);
    }
    forall k ensures KeySpelt(t', e', k) {
      assert KeySpelt(t, e, k);
      if k == KeyString(m) {
        assert KeyString(e'[m.id]) == k;
      } else if k in t.files {
        var x :| x in e && KeyString(e[x]) == k;
        assert KeyString(e'[x]) == k;
      }
    }
  }

  /** The path of a copy. */
  lemma CopyPathIsRerooted(src: Meta, m: Meta, d: Path)
    requires StoredPath(src.path) && src.path != [] && StoredPath(d) && d != [] && StoredPath(m.path)
    requires src == m || (src.isDir && src.path < m.path)
    ensures
      var s, k := KeyString(src), KeyString(m);
      Stored(d, src.isDir) + (if s <= k then k[|s|..] else k) == Stored(d + m.path[|src.path|..], m.isDir)
  {
    hide Render, Stored;
    if src == m {
      assert d + m.path[|src.path|..] == d;
    } else {
      var rest, slash := m.path[|src.path|..], if m.isDir then "/" else "";
      SuffixOfStored(src.path, m.path, m.isDir);
      RenderAppend(d, rest);
      StoredText(d, true);
      StoredText(d + rest, m.isDir);
      var rel := KeyString(m)[|KeyString(src)|..];
      Rejoin(Render(d), rel, Render(rest) + slash);
      assert Render(d) + (Render(rest) + slash) == Render(d) + Render(rest) + slash;
    }
  }

  lemma Rejoin(a: string, rel: string, tail: string)
    requires "/" + rel == tail
    ensures (a + "/") + rel == a + tail
  {
  }

  lemma CopiedRow(item: Record, src: Meta, m: Meta, d: Path, now: int, id: Id, blob: BlobId)
    requires item.meta == RowOf(m) && StoredPath(src.path) && src.path != [] && StoredPath(d) && d != [] && StoredPath(m.path) && m.path != []
    requires src == m || (src.isDir && src.path < m.path)
    ensures
      var m' := Rerooted(m, src.path, d, now, id);
      CopyRecord(item, KeyString(src), Stored(d, src.isDir), now, id, blob).meta == RowOf(m') && StoredPath(m'.path) && m'.path != []
  {
    hide Stored, BaseName;
    RerootedPath(m, src.path, d, now, id);
    CopyPathIsRerooted(src, m, d);
    BaseNameIsLast(Rerooted(m, src.path, d, now, id).path, m.isDir);
  }

  /** The items of a copy are the entries of the source's subtree. */
  ghost predicate ItemsOf(left: Entries, src: Meta, items: seq<Record>) {
    && (forall i :: 0 <= i < |items| ==>
          items[i].meta.id in left && items[i].meta == RowOf(left[items[i].meta.id]) && InSubtree(src, left[items[i].meta.id]))
    && (forall i, j :: 0 <= i < j < |items| ==> items[i].meta.id != items[j].meta.id)
    && (forall id {:trigger IncludesId(items, id)} :: id in left && InSubtree(src, left[id]) ==> IncludesId(items, id))
  }

  lemma GatheredItems(t: Db, left: Entries, src: Meta, root: Record, items: seq<Record>)
    requires NamespaceOk(left) && src.id in left && left[src.id] == src && Spelt(t, left)
    requires root.meta == RowOf(src) && GathersFrom(t.files, root, items)
    ensures ItemsOf(left, src, items)
  {
    hide Stored;
    NamespaceSensible(left);
    forall i | 0 <= i < |items|
      ensures items[i].meta.id in left && items[i].meta == RowOf(left[items[i].meta.id]) && InSubtree(src, left[items[i].meta.id])
    {
      if i > 0 {
        IdOfKey(t, left, items[i].meta.path);
        assert Includes(items, items[i].meta.path);
        ItemInSubtree(t, left, src, root, items[i].meta.id);
      }
    }
    forall i, j | 0 <= i < j < |items| ensures items[i].meta.id != items[j].meta.id {
      assert items[i].meta.path != items[j].meta.path;
    }
    forall id | id in left && InSubtree(src, left[id]) ensures IncludesId(items, id) {
      assert SpeltAt(t, left, id);
      ItemInSubtree(t, left, src, root, id);
      assert Includes(items, KeyString(left[id]));
      var i :| 0 <= i < |items| && items[i].meta.path == KeyString(left[id]);
      if i > 0 { IdOfKey(t, left, items[i].meta.path); }
      Distinct(left, items[i].meta.id, id);
    }
  }

  lemma ItemInSubtree(t: Db, left: Entries, src: Meta, root: Record, id: Id)
    requires NamespaceOk(left) && src.id in left && left[src.id] == src && Spelt(t, left) && id in left && root.meta == RowOf(src)
    ensures KeyString(left[id]) in t.files
    ensures InTree(root, KeyString(left[id]), t.files[KeyString(left[id])]) <==> InSubtree(src, left[id])
  {
    hide Stored;
    NamespaceSensible(left);
    assert SpeltAt(t, left, id);
    Distinct(left, src.id, id);
    InTreeIsInSubtree(src, left[id], root, t.files[KeyString(left[id])]);
  }

  /** Which item each fresh ID copies, and which entries have been copied. */
  ghost predicate Origins(items: seq<Record>, copies: seq<Record>, n: nat, origin: map<Id, Id>, done: set<Id>)
    requires n <= |items| == |copies|
  {
    && (forall x :: x in origin ==> exists i :: 0 <= i < n && copies[i].meta.id == x)
    && (forall x :: x in done <==> IncludesId(items[..n], x))
  }

  lemma {:induction false} AddAllRefines(t: Db, left: Entries, src: Meta, d: Path, now: int, items: seq<Record>,
      copies: seq<Record>, n: nat)
    returns (origin: map<Id, Id>, done: set<Id>)
    requires Carrying(left, src, d) && Spelt(t, left) && ItemsOf(left, src, items) && n <= |items| == |copies|
    requires Replicates(items, KeyString(src), Stored(d, src.isDir), now, copies) && FreshIds(t.index, copies)
    ensures d != [] && Origins(items, copies, n, origin, done) && Numbering(left, src, done, origin)
    ensures forall x :: x in origin ==> origin[x] in left
    ensures Spelt(AddAll(t, copies, n), Duplicated(left, src, d, now, origin))
    decreases n
  {
    hide Stored, BaseName, Carrying, Spelt, CopyRecord, ItemsOf, Numbering, FreshIds, Replicates;
    CarryingParts(left, src, d);
    if n == 0 {
      origin, done := map[], {};
      NothingNumbered(left, src, d, now);
    } else {
      var j: nat := n - 1;
      origin, done := AddAllRefines(t, left, src, d, now, items, copies, j);
      var x, id := items[j].meta.id, copies[j].meta.id;
      IndexIsIds(t, left);
      ItemFacts(left, src, items, j);
      OriginNext(t.index, items, copies, j, origin, done);
      ReplicateFacts(items, KeyString(src), Stored(d, src.isDir), now, copies, j);
      AddNextRefines(AddAll(t, copies, j), left, src, d, now, done, origin, items[j], copies[j]);
      NumberNext(left, src, done, origin, x, id);
      origin := origin[id := x];
      done := done + {x};
    }
  }

  lemma ItemFacts(left: Entries, src: Meta, items: seq<Record>, j: nat)
    requires ItemsOf(left, src, items) && j < |items|
    ensures items[j].meta.id in left && items[j].meta == RowOf(left[items[j].meta.id]) && InSubtree(src, left[items[j].meta.id])
    ensures forall a, b :: 0 <= a < b < |items| ==> items[a].meta.id != items[b].meta.id
  {
  }

  lemma ReplicateFacts(items: seq<Record>, s: string, dst: string, now: int, copies: seq<Record>, j: nat)
    requires Replicates(items, s, dst, now, copies) && j < |items|
    ensures copies[j] == CopyRecord(items[j], s, dst, now, copies[j].meta.id, copies[j].blob)
  {
    hide CopyRecord;
  }

  lemma OriginNext(index: map<Id, string>, items: seq<Record>, copies: seq<Record>, j: nat, origin: map<Id, Id>,
      done: set<Id>)
    requires j < |items| == |copies| && Origins(items, copies, j, origin, done) && FreshIds(index, copies)
    requires forall a, b :: 0 <= a < b < |items| ==> items[a].meta.id != items[b].meta.id
    ensures items[j].meta.id !in done && copies[j].meta.id !in origin && copies[j].meta.id !in index && copies[j].meta.id != NIL
    ensures Origins(items, copies, j + 1, origin[copies[j].meta.id := items[j].meta.id], done + {items[j].meta.id})
  {
    NotIncludedYet(items, j);
    assert items[..j + 1] == items[..j] + [items[j]];
    IncludesNext(items[..j], items[j]);
  }

  lemma IndexIsIds(t: Db, e: Entries)
    requires Spelt(t, e)
    ensures t.index.Keys == e.Keys
  {
  }

  lemma NotIncludedYet(items: seq<Record>, j: nat)
    requires j < |items| && forall a, b :: 0 <= a < b < |items| ==> items[a].meta.id != items[b].meta.id
    ensures !IncludesId(items[..j], items[j].meta.id)
  {
  }

  lemma AddNextRefines(t: Db, left: Entries, src: Meta, d: Path, now: int, done: set<Id>, origin: map<Id, Id>,
      item: Record, copy: Record)
    requires Carrying(left, src, d) && Numbering(left, src, done, origin)
    requires d != [] && Spelt(t, Duplicated(left, src, d, now, origin))
    requires item.meta.id in left && item.meta == RowOf(left[item.meta.id]) && InSubtree(src, left[item.meta.id]) && item.meta.id !in done
    requires copy == CopyRecord(item, KeyString(src), Stored(d, src.isDir), now, copy.meta.id, copy.blob)
    requires copy.meta.id !in left && copy.meta.id !in origin && copy.meta.id != NIL
    ensures Spelt(AddRecord(t, copy), Duplicated(left, src, d, now, origin[copy.meta.id := item.meta.id]))
  {
    hide Stored, BaseName, CanPlace, Spelt, CopyRecord, NamespaceOk;
    var x, id := item.meta.id, copy.meta.id;
    var m, e := Rerooted(left[x], src.path, d, now, id), Duplicated(left, src, d, now, origin);
    CarryingNames(left, src, d, x);
    CarryingNames(left, src, d, src.id);
    InSubtreeIsBelow(left, src.id, x);
    BelowOrSelf(left, src, x);
    CopiedRow(item, src, left[x], d, now, id, copy.blob);
    forall y | y in e ensures KeyString(e[y]) != KeyString(m) {
      var o := if y in origin then origin[y] else y;
      CarryingNames(left, src, d, o);
      CarriedApart(left, src, d, now, x, o);
      if y in origin {
        InSubtreeIsBelow(left, src.id, o);
        RerootedPath(left[o], src.path, d, now, y);
      }
      KeyStringInjective(e[y], m);
    }
    AddRecordRefines(t, e, copy, m);
    DuplicatedNext(left, src, d, now, done, origin, x, id);
  }

  lemma BelowOrSelf(left: Entries, src: Meta, x: Id)
    requires NamespaceOk(left) && src.id in left && left[src.id] == src && x in left && InSubtree(src, left[x])
    ensures left[x] == src || (src.isDir && src.path < left[x].path)
  {
    assert WellFormed(left, x) && Unique(left, x, src.id);
    InSubtreeIsBelow(left, src.id, x);
    if src.path < left[x].path { BelowDirectory(left, src.id, x); }
  }

  /** Chunks do not matter to the spelling. */
  lemma SpeltAlike(a: Db, b: Db, ids: Entries)
    requires Spelt(a, ids) && a.files == b.files && a.index == b.index
    ensures Spelt(b, ids)
  {
    forall id ensures SpeltAt(b, ids, id) { assert SpeltAt(a, ids, id); }
    forall k ensures KeySpelt(b, ids, k) { assert KeySpelt(a, ids, k); }
  }

  /** On the spelling of a namespace, and if no record has changed by the commit, Badger's copy is the copy of the
      namespace: an isomorphic subtree under fresh IDs, the source untouched, the replaced subtree gone. */
  lemma CopyRefines(view: Db, t: Db, ids: Entries, id: Id, value: string, replace: Option<Id>, now: int, c: Copying, r: Db,
      d: Path, target: Option<Meta>) returns (origin: map<Id, Id>)
    requires Spelt(view, ids) && t.files == view.files && t.index == view.index && Accepts(ids, id, d, target)
    requires CopyReads(view, id, value, replace, c) && CopyWrites(view, t, now, c, r) && c.dst == Stored(d, ids[id].isDir)
    ensures d != [] && Numbers(Remaining(ids, target), ids[id], origin)
    ensures Spelt(r, Duplicated(Remaining(ids, target), ids[id], d, now, origin))
  {
    hide Stored, BaseName, Render, TransferPath, Clean, Split, TrimSlash, Spelt, Numbers, GathersFrom, Erased, SameData;
    var left, src := Remaining(ids, target), ids[id];
    AcceptedCarries(ids, id, d, target);
    SpeltAlike(view, t, ids);
    SourceRecord(t, ids, id);
    var found := FindByPath(t.files, TrimSlash(c.dst));
    var t1 :| Cleared(view, found, c.victims, t1) && GathersFrom(t1.files, c.src, c.items);
    var b1 :| Erased(t, c.victims, b1) && r == AddAll(b1, c.copies, |c.copies|);
    FreshWhenErased(t, c.victims, b1, c.copies);
    ClearedRefines(view, ids, id, d, src.isDir, target, c.victims, t1);
    ClearedRefines(t, ids, id, d, src.isDir, target, c.victims, b1);
    CarryingParts(left, src, d);
    GatheredItems(t1, left, src, c.src, c.items);
    var done;
    origin, done := AddAllRefines(b1, left, src, d, now, c.items, c.copies, |c.items|);
    AllNumbered(left, src, c.items, done, origin);
  }

  lemma CarryingParts(left: Entries, src: Meta, d: Path)
    requires Carrying(left, src, d)
    ensures NamespaceOk(left) && src.id in left && left[src.id] == src && d != []
  {
  }

  lemma SourceRecord(t: Db, ids: Entries, id: Id)
    requires Spelt(t, ids) && NamespaceOk(ids) && id in ids
    ensures FindById(t, id).Some? && FindById(t, id).value.meta == RowOf(ids[id]) && ids[id].id == id
    ensures FindById(t, id).value.meta.path == KeyString(ids[id])
  {
    hide Stored;
    assert SpeltAt(t, ids, id) && WellFormed(ids, id);
  }

  lemma SpeltThere(t: Db, ids: Entries, id: Id)
    requires Spelt(t, ids) && id in ids
    ensures KeyString(ids[id]) in t.files && t.files[KeyString(ids[id])].meta == RowOf(ids[id])
    ensures id in t.index && t.index[id] == KeyString(ids[id]) && FindById(t, id) == Some(t.files[KeyString(ids[id])])
  {
    hide Stored;
    assert SpeltAt(t, ids, id);
  }

  lemma AllNumbered(left: Entries, src: Meta, items: seq<Record>, done: set<Id>, origin: map<Id, Id>)
    requires ItemsOf(left, src, items) && Numbering(left, src, done, origin)
    requires forall x :: x in done <==> IncludesId(items[..|items|], x)
    ensures Numbers(left, src, origin)
  {
    assert items[..|items|] == items;
    forall id | id in left && InSubtree(src, left[id]) ensures exists x :: x in origin && origin[x] == id {
      assert IncludesId(items, id);
      assert id in done;
    }
  }

  // ----- What LocalStorage accepts, Badger accepts -----

  /** The destination a string stands for. */
  function Destined(value: string): Path {
    Clean(Split(TrimSpace(value)))
  }

  /** Badger's own trimming and rooting change nothing. */
  lemma RootedDestination(value: string)
    ensures Destined(Rooted(TrimSpace(value))) == Destined(value)
  {
    hide IsSpace, TrimLeft, TrimRight, TrimSpace, Clean;
    var s := TrimSpace(value);
    TrimmedEnds(value);
    TrimStays(s);
    if s == "" || s[0] != '/' {
      SlashIsNoSpace();
      TrimStays("/" + s);
      assert ("/" + s)[1..] == s;
      assert Split("/" + s) == [""] + Split(s);
      CleanLeading(Split(s));
    }
  }

  lemma SlashIsNoSpace()
    ensures !IsSpace('/')
  {
  }

  /** LocalStorage trims the cleaned path once more, which keeps it exactly if its last name does not end in
      white space. */
  lemma DestinationKept(value: string, p: Path)
    requires StoragePath(value) == Some(p) && p != []
    ensures Destined(value) == p
    ensures Destined(Stored(p, false)) == p <==> !EndsInSpace(Last(p))
  {
    hide IsSpace, TrimLeft, TrimRight, TrimSpace, Clean, Split, Render;
    StoragePathYieldsStoredNames(value);
    StoredIsClean(p);
    RenderLast(p);
    var r := Stored(p, false);
    assert r == Render(p);
    SlashIsNoSpace();
    StoredName0(p);
    TrimStays(r);
    if EndsInSpace(Last(p)) {
      RenderedLength(TrimSpace(r));
      ShorterThanRendered(p, r);
    } else {
      StoredCleans(p, false);
    }
  }

  lemma StoredName0(p: Path)
    requires StoredPath(p) && p != []
    ensures Render(p) != "" && Render(p)[0] == '/' && Last(p) != ""
  {
    assert StoredName(Last(p));
  }

  /** White space cut off at the end of the last name does not come back. */
  lemma ShorterThanRendered(p: Path, r: string)
    requires StoredPath(p) && p != [] && r == Render(p) && EndsInSpace(Last(p))
    ensures Clean(Split(TrimSpace(r))) != p
  {
    hide IsSpace, TrimLeft, TrimRight, Clean, Split, Render;
    StoredIsClean(p);
    RenderLast(p);
    StoredName0(p);
    TrimOfRooted(r);
    var t := TrimRight(r);
    TrimRightShortens(r);
    if t != "" {
      PrefixHead(t, r);
      SplitOfRooted(t);
      CleanLeading(Split(t[1..]));
      RenderedLength(t[1..]);
    } else {
      RenderOfEmpty();
    }
  }

  lemma TrimRightShortens(s: string)
    requires s != "" && IsSpace(s[|s| - 1])
    ensures |TrimRight(s)| < |s| && TrimRight(s) <= s
  {
  }

  lemma PrefixHead(t: string, r: string)
    requires t != "" && t <= r
    ensures t[0] == r[0]
  {
  }

  lemma SplitOfRooted(t: string)
    requires t != "" && t[0] == '/'
    ensures Split(t) == [""] + Split(t[1..])
  {
  }

  lemma RenderOfEmpty()
    ensures Clean(Split("")) == []
  {
    assert [""][..0] == [];
  }

  /** The drivers read this destination alike. */
  ghost predicate ReadAlike(value: string) {
    StoragePath(value).Some? && StoragePath(value).value != [] && !EndsInSpace(Last(StoragePath(value).value))
  }

  /** Badger's checks on a transfer succeed and lead to d. */
  ghost predicate BadgerAccepts(t: Db, id: Id, value: string, replace: Option<Id>, d: Path) {
    && FindById(t, id).Some?
    && var src := FindById(t, id).value;
       TransferPath(Clean(Split(src.meta.path)), src.meta.isDir, value) == Some(d) &&
       CheckReplacement(RecordId(FindByPath(t.files, TrimSlash(Stored(d, src.meta.isDir)))), replace)
  }

  lemma CheckedParts(paths: Lookup, src: Meta, value: string, replace: Option<Id>, d: Path, target: Option<Meta>)
    requires TransferChecked(paths, src, value, replace, To(d, target))
    ensures StoragePath(value).Some? && TransferPath(src.path, src.isDir, Stored(StoragePath(value).value, false)) == Some(d)
    ensures target == Find(paths, d) && CheckReplacement(IdOf(target), replace)
  {
    hide StoragePath, TransferPath, Stored, Find, CheckParent;
  }

  lemma ReadAlikeDestination(value: string, src: Path, isDir: bool)
    requires ReadAlike(value)
    ensures
      TransferPath(src, isDir, Stored(StoragePath(value).value, false)) == TransferPath(src, isDir, value) ==
      TransferPath(src, isDir, Rooted(TrimSpace(value)))
  {
    hide StoragePath, Clean, Split, Stored, TrimSpace, EndsInSpace, Rooted;
    var p := StoragePath(value).value;
    DestinationKept(value, p);
    RootedDestination(value);
  }

  lemma SameTarget(t: Db, ids: Entries, paths: Lookup, d: Path, isDir: bool)
    requires NamespaceOk(ids) && SameEntries(ids, paths) && Spelt(t, ids) && CleanPath(d) && d != []
    ensures RecordId(FindByPath(t.files, TrimSlash(Stored(d, isDir)))) == IdOf(Find(paths, d))
  {
    hide Stored, TrimSlash, FindByPath, Find;
    FindByPathFinds(t, ids, d, isDir);
    FindExact(ids, paths, d);
    var found := FindByPath(t.files, TrimSlash(Stored(d, isDir)));
    if found.Some? && Find(paths, d).Some? {
      assert WellFormed(ids, Find(paths, d).value.id);
      assert Unique(ids, found.value.meta.id, Find(paths, d).value.id);
    }
  }

  /** Whatever Move or Copy LocalStorage accepts, Badger accepts on the same namespace and to the same end,
      unless the destination's last name ends in white space. (Move roots the string it is given.) */
  lemma AcceptedByBoth(t: Db, ids: Entries, paths: Lookup, id: Id, value: string, replace: Option<Id>, d: Path,
      target: Option<Meta>)
    requires NamespaceOk(ids) && SameEntries(ids, paths) && Spelt(t, ids) && id in ids
    requires TransferChecked(paths, ids[id], value, replace, To(d, target)) && ReadAlike(value)
    ensures Accepts(ids, id, d, target)
    ensures BadgerAccepts(t, id, value, replace, d) && BadgerAccepts(t, id, Rooted(TrimSpace(value)), replace, d)
    ensures TransferRefusal(t, id, value, replace).None? && TransferRefusal(t, id, Rooted(TrimSpace(value)), replace).None?
  {
    hide StoragePath, TransferPath, Stored, TrimSpace, TrimSlash, Rooted, FindByPath, Find, TransferChecked, ReadAlike, Clean, Split, StoredPath;
    var src := ids[id];
    SourceRecord(t, ids, id);
    CheckTransferDecides(ids, paths, src, value, replace, To(d, target));
    CheckedParts(paths, src, value, replace, d, target);
    ReadAlikeDestination(value, src.path, src.isDir);
    NamespaceSensible(ids);
    StoredIsClean(src.path);
    StoredCleans(src.path, src.isDir);
    StoredIsClean(d);
    SameTarget(t, ids, paths, d, src.isDir);
  }

  // ----- When a move deletes its own source -----

  /** In the spelling of a namespace no move swallows its source: TransferPath refuses every ancestor. */
  lemma NamespaceNeverSwallows(t: Db, ids: Entries, id: Id, value: string, replace: Option<Id>, now: int, m: Moving,
      r: Db, d: Path)
    requires NamespaceOk(ids) && Spelt(t, ids) && id in ids && Moves(t, id, value, replace, now, m, r)
    requires TransferPath(Clean(Split(m.src.meta.path)), m.src.meta.isDir, value) == Some(d)
    ensures !Swallowed(t.files, m.src, m.dst)
  {
    hide Stored, TransferPath, Clean, Split, MoveAll, Spelt, TrimSlash, ChildPath, BaseName, TrimSpace;
    var src := ids[id];
    SourceRecord(t, ids, id);
    NamespaceSensible(ids);
    StoredCleans(src.path, src.isDir);
    StoredIsClean(src.path);
    TransferPathDecidesAncestry(src.path, src.isDir, value);
    CleanOfSplit(TrimSpace(value));
    var t1 :| MovesVia(t, now, m, t1, r);
    FindByPathFinds(t, ids, d, src.isDir);
    var found := FindByPath(t.files, TrimSlash(m.dst));
    if found.Some? {
      VictimIff(t, ids, found.value.meta.id, m.victims, id);
      InSubtreeIsBelow(ids, found.value.meta.id, id);
    }
  }

  /** Going up from a directory and down again. */
  lemma UpAndDown(a: string, c: string)
    requires CleanName(a) && CleanName(c) && '/' !in a && '/' !in c
    ensures Clean(Split("/" + a + "/" + ".." + "/" + c)) == [c]
    ensures Clean(Split("/" + a)) == [a] && Render([a]) == "/" + a
  {
    hide Split;
    EmptySplit();
    SplitOne(a);
    SplitOne(c);
    SplitOne("..");
    SplitConcat("", a);
    assert "" + "/" + a == "/" + a;
    SplitConcat("/" + a, "..");
    SplitConcat("/" + a + "/" + "..", c);
    var up := [""] + [a] + [".."];
    assert up[..2] == [""] + [a];
    CleanTrailing([]);
    assert [] + [""] == [""];
    CleanNames([""], [a]);
    assert Clean(up) == [];
    CleanNames(up, [c]);
    assert Render([a]) == "/" + (a + Render([]));
    assert a + "" == a;
  }

  // ----- Create and Mkdir -----

  lemma StoredOfRoot()
    ensures Stored([], true) == "/"
  {
  }

  /** getParentPath of a stored path. */
  lemma ParentOfStored(p: Path, isDir: bool)
    requires StoredPath(p) && p != []
    ensures ParentString(Stored(p, isDir)) == Stored(Parent(p), true)
  {
    hide Render, Stored, UpToSlash;
    var last := [Last(p)];
    NoSlashAtEnd(p);
    StoredText(p, isDir);
    assert TrimSlash(Stored(p, isDir)) == Render(p);
    RenderAppend(Parent(p), last);
    assert p == Parent(p) + last;
    RenderOne(Last(p));
    assert StoredName(Last(p));
    UpToName(Render(Parent(p)), Last(p));
    if Parent(p) == [] {
      StoredOfRoot();
      RenderNothing();
      assert "" + "/" == "/";
    } else {
      StoredText(Parent(p), true);
    }
  }

  lemma RenderOne(c: string)
    ensures Render([c]) == "/" + c
  {
    assert Render([c]) == "/" + (c + Render([]));
    assert c + "" == c;
  }

  lemma RenderNothing()
    ensures Render([]) == ""
  {
  }

  lemma {:induction false} UpToName(a: string, name: string)
    requires '/' !in name
    ensures UpToSlash(a + ("/" + name)) == a + "/"
    decreases |name|
  {
    var s := a + ("/" + name);
    if name == "" {
      assert s == a + "/";
    } else {
      assert s[|s| - 1] == name[|name| - 1];
      assert s[..|s| - 1] == a + ("/" + name[..|name| - 1]);
      UpToName(a, name[..|name| - 1]);
    }
  }

  /** The key is that of an entry. */
  ghost predicate Taken(ids: Entries, k: string) {
    exists id :: id in ids && KeyString(ids[id]) == k
  }

  ghost predicate TakenByDirectory(ids: Entries, k: string) {
    exists id :: id in ids && ids[id].isDir && KeyString(ids[id]) == k
  }

  lemma TakenIff(t: Db, ids: Entries, k: string)
    requires Spelt(t, ids)
    ensures k in t.files <==> Taken(ids, k)
  {
    hide Stored;
    assert KeySpelt(t, ids, k);
    if Taken(ids, k) {
      var id :| id in ids && KeyString(ids[id]) == k;
      assert SpeltAt(t, ids, id);
    }
  }

  /** Looking up a string that ends in a slash finds a directory with that very key or nothing. */
  lemma FindsDirectory(t: Db, ids: Entries, u: string)
    requires NamespaceOk(ids) && Spelt(t, ids) && u != "" && u != "/" && u[|u| - 1] == '/'
    ensures FindByPath(t.files, u).Some? <==> TakenByDirectory(ids, u)
    ensures FindByPath(t.files, u).Some? ==> FindByPath(t.files, u).value.meta.isDir
  {
    hide Render, Stored;
    NamespaceSensible(ids);
    TakenIff(t, ids, u);
    TakenIff(t, ids, u + "/");
    forall id | id in ids ensures KeyString(ids[id]) != u + "/" && (KeyString(ids[id]) == u ==> ids[id].isDir) {
      StoredText(ids[id].path, ids[id].isDir);
      NoSlashAtEnd(ids[id].path);
      var r := Render(ids[id].path);
      assert (u + "/")[..|u|] == u && (r + "/")[..|r|] == r && r + "" == r;
    }
    if Taken(ids, u) {
      var id :| id in ids && KeyString(ids[id]) == u;
      assert SpeltAt(t, ids, id);
    }
  }

  /** Badger's checks on any new key: a parent that has a key of its own, unless it is the root, and a key that is
      free. */
  lemma NewKeyDecides(t: Db, ids: Entries, k: string)
    requires NamespaceOk(ids) && Spelt(t, ids)
    ensures NewRefusal(t.files, k).None? <==>
      (ParentString(k) == "/" || TakenByDirectory(ids, ParentString(k))) && !Taken(ids, k)
  {
    hide Stored, TrimSlash, FindByPath, Taken, TakenByDirectory;
    EndsAtSlash(TrimSlash(k));
    TakenIff(t, ids, k);
    if ParentString(k) != "/" { FindsDirectory(t, ids, ParentString(k)); }
  }

  lemma {:induction false} EndsAtSlash(s: string)
    ensures UpToSlash(s) != "" && UpToSlash(s)[|UpToSlash(s)| - 1] == '/'
  {
    if s != "" && s[|s| - 1] != '/' { EndsAtSlash(s[..|s| - 1]); }
  }

  /** In the spelling of a namespace, Create and Mkdir ask for an indexed parent and for a path that no entry
      of the same kind has. */
  lemma NewRefusalDecides(t: Db, ids: Entries, p: Path, isDir: bool)
    requires NamespaceOk(ids) && Spelt(t, ids) && StoredPath(p) && p != []
    ensures NewRefusal(t.files, Stored(p, isDir)).None? <==>
      HasDirectory(ids, Parent(p)) && forall id :: id in ids ==> !(ids[id].path == p && ids[id].isDir == isDir)
  {
    hide Render, Stored, UpToSlash, TrimSlash, FindByPath, NewRefusal, ParentString;
    var up, key, m := Parent(p), Stored(p, isDir), Meta(NIL, p, isDir, "", 0, 0, "");
    NamespaceSensible(ids);
    NewKeyDecides(t, ids, key);
    ParentOfStored(p, isDir);
    if up == [] {
      StoredOfRoot();
    } else {
      forall i | 0 <= i < |up| ensures StoredName(up[i]) { assert up[i] == p[i]; }
      NotRootKey(up);
      DirectoryKey(ids, up);
    }
    forall id | id in ids ensures KeyString(ids[id]) == key <==> ids[id].path == p && ids[id].isDir == isDir {
      KeyStringInjective(ids[id], m);
    }
  }

  lemma DirectoryKey(ids: Entries, p: Path)
    requires Sensibles(ids) && StoredPath(p) && p != []
    ensures TakenByDirectory(ids, Stored(p, true)) <==> IsDirectory(ids, p)
  {
    hide Stored;
    var m := Meta(NIL, p, true, "", 0, 0, "");
    forall id | id in ids ensures KeyString(ids[id]) == Stored(p, true) <==> ids[id].path == p && ids[id].isDir {
      KeyStringInjective(ids[id], m);
    }
  }

  lemma NotRootKey(p: Path)
    requires StoredPath(p) && p != []
    ensures Stored(p, true) != "/"
  {
    hide Render, Stored;
    StoredText(p, true);
    NoSlashAtEnd(p);
  }
}
