/** The index file: rows as they stand in JSON, and what readIndex accepts. */
module IndexFiles {
  import opened Paths
  import opened Disk
  import opened Namespace
  import opened Store
  import opened EntryMaps

  /** An entry as the index file spells it. */
  datatype Row = Row(id: Id, path: string, isDir: bool, name: string, size: int, modified: int, comments: string)

  function RowOf(m: Meta): Row {
    Row(m.id, Stored(m.path, m.isDir), m.isDir, m.name, m.size, m.modified, m.comments)
  }

  function RowsOf(metas: seq<Meta>): seq<Row> {
    seq(|metas|, i requires 0 <= i < |metas| => RowOf(metas[i]))
  }

  /** The checks of readIndex on one entry. */
  function Decode(row: Row): Option<Meta> {
    match StoragePath(row.path)
    case None => None
    case Some(p) =>
      if Stored(p, row.isDir) != row.path || p == [] || row.id == NIL || row.size < 0 || row.name != Last(p) then None
      else Some(Meta(row.id, p, row.isDir, row.name, row.size, row.modified, row.comments))
  }

  predicate Trimmed(m: Meta) {
    m.isDir || m.path == [] || !EndsInSpace(Last(m.path))
  }

  predicate Sensible(m: Meta) {
    m.id != NIL && m.path != [] && StoredPath(m.path) && m.name == Last(m.path)
  }

  /** An entry reads back exactly if it is sensible and, for a file, its name does not end in white space. */
  lemma DecodesBack(m: Meta)
    requires Sensible(m)
    ensures Decode(RowOf(m)) == Some(m) <==> Trimmed(m)
  {
    hide StoragePath, Stored;
    if m.isDir { DirectoryStable(m.path); } else { FileStable(m.path); }
  }

  /** Whatever readIndex accepts is a sensible entry spelt in its one way. */
  lemma DecodedIsSensible(row: Row)
    ensures Decode(row).Some? ==> Sensible(Decode(row).value) && Trimmed(Decode(row).value) && row == RowOf(Decode(row).value)
  {
    hide StoragePath, Stored;
    if Decode(row).Some? {
      var m := Decode(row).value;
      StoragePathYieldsStoredNames(row.path);
      if m.isDir { DirectoryStable(m.path); } else { FileStable(m.path); }
    }
  }

  ghost predicate AllTrimmed(ids: Entries) {
    forall id :: id in ids ==> Trimmed(ids[id])
  }

  /** The rows spell the entries, in some order. */
  ghost predicate Spells(rows: seq<Row>, metas: seq<Meta>) {
    |rows| == |metas| && forall i :: 0 <= i < |rows| ==> rows[i] == RowOf(metas[i])
  }

  /** The index of a namespace in which no file name ends in white space. */
  ghost predicate IndexOf(rows: seq<Row>, ids: Entries) {
    NamespaceOk(ids) && AllTrimmed(ids) && exists metas :: Spells(rows, metas) && Lists(metas, ids)
  }

  /** The rows determine the entries. */
  lemma RowsDetermine(rows: seq<Row>, ids: Entries, metas: seq<Meta>)
    requires NamespaceOk(ids) && AllTrimmed(ids) && Spells(rows, metas) && Lists(metas, ids)
    ensures forall i :: 0 <= i < |rows| ==> Decode(rows[i]) == Some(metas[i])
  {
    forall i | 0 <= i < |rows| ensures Decode(rows[i]) == Some(metas[i]) {
      hide Decode, StoredPath;
      assert WellFormed(ids, metas[i].id);
      DecodesBack(metas[i]);
    }
  }

  lemma ListsDetermines(metas: seq<Meta>, a: Entries, b: Entries)
    requires Lists(metas, a) && Lists(metas, b)
    ensures a == b
  {
    forall id | id in a ensures id in b && a[id] == b[id] {
      assert Recorded(metas, id);
      var i :| 0 <= i < |metas| && metas[i].id == id;
    }
    forall id | id in b ensures id in a {
      assert Recorded(metas, id);
    }
  }

  /** Rows are the index of one namespace at most. */
  lemma SameIndex(rows: seq<Row>, a: Entries, b: Entries)
    requires IndexOf(rows, a) && IndexOf(rows, b)
    ensures a == b
  {
    hide Decode;
    var ma: seq<Meta> :| Spells(rows, ma) && Lists(ma, a);
    var mb: seq<Meta> :| Spells(rows, mb) && Lists(mb, b);
    RowsDetermine(rows, a, ma);
    RowsDetermine(rows, b, mb);
    assert ma == mb;
    ListsDetermines(ma, a, b);
  }

  /** The file names an index can be read back with. */
  lemma IndexReadsBack(metas: seq<Meta>, ids: Entries)
    requires NamespaceOk(ids) && Lists(metas, ids)
    ensures AllTrimmed(ids) ==> IndexOf(RowsOf(metas), ids)
    ensures forall other :: IndexOf(RowsOf(metas), other) ==> other == ids && AllTrimmed(ids)
  {
    hide RowOf, Decode;
    assert Spells(RowsOf(metas), metas);
    forall other | IndexOf(RowsOf(metas), other) ensures other == ids {
      OnlyIndex(metas, ids, other);
    }
  }

  /** Without knowing yet that the names are trimmed: the rows alone tell the entries. */
  lemma OnlyIndex(metas: seq<Meta>, ids: Entries, other: Entries)
    requires NamespaceOk(ids) && Lists(metas, ids) && IndexOf(RowsOf(metas), other)
    ensures other == ids
  {
    hide Stored, Render;
    var all: seq<Meta> :| Spells(RowsOf(metas), all) && Lists(all, other);
    forall i | 0 <= i < |metas| ensures all[i] == metas[i] {
      assert RowOf(all[i]) == RowsOf(metas)[i] == RowOf(metas[i]);
      assert WellFormed(ids, metas[i].id) && WellFormed(other, all[i].id);
      SameRowSamePath(all[i], metas[i]);
    }
    assert all == metas;
    ListsDetermines(metas, ids, other);
  }

  lemma SameRowSamePath(a: Meta, b: Meta)
    requires CleanPath(a.path) && CleanPath(b.path) && a.path != [] && b.path != []
    requires Stored(a.path, a.isDir) == Stored(b.path, b.isDir) && a.isDir == b.isDir
    ensures a.path == b.path
  {
    hide Render;
    var s := if a.isDir then "/" else "";
    assert Render(a.path) + s == Render(b.path) + s;
    assert Render(a.path) == (Render(a.path) + s)[..|Render(a.path) + s| - |s|];
    assert Render(b.path) == (Render(b.path) + s)[..|Render(b.path) + s| - |s|];
    RenderInjective(a.path, b.path);
  }

  // ----- Reading the rows one after the other -----

  ghost predicate RowsDiffer(metas: seq<Meta>, i: nat, j: nat)
    requires i < |metas| && j < |metas|
  {
    metas[i].id != metas[j].id && metas[i].path != metas[j].path
  }

  ghost predicate Keyed(metas: seq<Meta>, key: string) {
    exists i :: 0 <= i < |metas| && Render(metas[i].path) == key
  }

  /** The rows of `metas` have been read: all are sensible, and no ID and no path occurs twice. */
  ghost predicate Reading(rows: seq<Row>, metas: seq<Meta>, ids: Entries, keys: set<string>) {
    && |metas| <= |rows| && Lists(metas, ids)
    && (forall i :: 0 <= i < |metas| ==> Decode(rows[i]) == Some(metas[i]))
    && (forall i, j {:trigger RowsDiffer(metas, i, j)} :: 0 <= i < j < |metas| ==> RowsDiffer(metas, i, j))
    && (forall i :: 0 <= i < |metas| ==> Render(metas[i].path) in keys)
    && (forall key {:trigger Keyed(metas, key)} :: key in keys ==> Keyed(metas, key))
  }

  lemma ReadNext(rows: seq<Row>, metas: seq<Meta>, ids: Entries, keys: set<string>, m: Meta)
    requires Reading(rows, metas, ids, keys) && |metas| < |rows| && Decode(rows[|metas|]) == Some(m)
    requires m.id !in ids && Render(m.path) !in keys
    ensures Reading(rows, metas + [m], ids[m.id := m], keys + {Render(m.path)})
  {
    hide Decode, Render;
    var next := metas + [m];
    forall i, j | 0 <= i < j < |next| ensures RowsDiffer(next, i, j) {
      if j < |metas| { assert RowsDiffer(metas, i, j); }
    }
    forall id | id in ids[m.id := m] ensures Recorded(next, id) {
      if id == m.id {
        assert next[|metas|].id == id;
      } else {
        assert Recorded(metas, id);
        var i :| 0 <= i < |metas| && metas[i].id == id;
        assert next[i] == metas[i];
      }
    }
    forall key | key in keys + {Render(m.path)} ensures Keyed(next, key) {
      if key in keys {
        assert Keyed(metas, key);
        var i :| 0 <= i < |metas| && Render(metas[i].path) == key;
        assert next[i] == metas[i];
      } else {
        assert next[|metas|] == m;
      }
    }
  }

  lemma DistinctKeys(p: Path, q: Path)
    requires StoredPath(p) && StoredPath(q) && p != q
    ensures Render(p) != Render(q)
  {
    hide Render;
    StoredIsClean(p);
    StoredIsClean(q);
    if Render(p) == Render(q) { RenderInjective(p, q); }
  }

  /** No row of an index is refused. */
  lemma NextRow(rows: seq<Row>, metas: seq<Meta>, ids: Entries, keys: set<string>, other: Entries)
    requires Reading(rows, metas, ids, keys) && |metas| < |rows| && IndexOf(rows, other)
    ensures
      var d := Decode(rows[|metas|]);
      d.Some? && d.value.id !in ids && Render(d.value.path) !in keys
  {
    hide Decode, Render, StoredPath;
    var all: seq<Meta> :| Spells(rows, all) && Lists(all, other);
    RowsDetermine(rows, other, all);
    var n: nat, m: Meta := |metas|, all[|metas|];
    forall i | 0 <= i < n ensures metas[i].id != m.id && Render(metas[i].path) != Render(m.path) {
      assert all[i] == metas[i] && all[i].id != m.id;
      assert WellFormed(other, m.id) && WellFormed(other, all[i].id) && Unique(other, m.id, all[i].id);
      DistinctKeys(all[i].path, m.path);
    }
    assert m.id in ids ==> Recorded(metas, m.id);
    assert Render(m.path) in keys ==> Keyed(metas, Render(m.path));
  }

  lemma ReadIsUnique(rows: seq<Row>, metas: seq<Meta>, ids: Entries, keys: set<string>)
    requires Reading(rows, metas, ids, keys)
    ensures forall id :: id in ids ==> ids[id].id == id && Sensible(ids[id]) && Trimmed(ids[id])
    ensures forall a, b {:trigger Unique(ids, a, b)} :: a in ids && b in ids ==> Unique(ids, a, b)
  {
    hide Decode, Render, StoredPath, EndsInSpace;
    forall id | id in ids ensures ids[id].id == id && Sensible(ids[id]) && Trimmed(ids[id]) {
      assert Recorded(metas, id);
      var i :| 0 <= i < |metas| && metas[i].id == id;
      DecodedIsSensible(rows[i]);
    }
    forall a, b | a in ids && b in ids ensures Unique(ids, a, b) {
      assert Recorded(metas, a) && Recorded(metas, b);
      var i :| 0 <= i < |metas| && metas[i].id == a;
      var j :| 0 <= j < |metas| && metas[j].id == b;
      if i < j { assert RowsDiffer(metas, i, j); } else if j < i { assert RowsDiffer(metas, j, i); }
    }
  }

  lemma ReadSpells(rows: seq<Row>, metas: seq<Meta>, ids: Entries, keys: set<string>)
    requires Reading(rows, metas, ids, keys) && |metas| == |rows|
    ensures Spells(rows, metas)
    ensures forall other :: IndexOf(rows, other) ==> other == ids
  {
    hide Decode, Render, StoredPath;
    forall i | 0 <= i < |rows| ensures rows[i] == RowOf(metas[i]) {
      DecodedIsSensible(rows[i]);
    }
    forall other | IndexOf(rows, other) ensures other == ids {
      var all: seq<Meta> :| Spells(rows, all) && Lists(all, other);
      RowsDetermine(rows, other, all);
      assert all == metas;
      ListsDetermines(metas, other, ids);
    }
  }

  // ----- readIndex -----

  /** readIndex accepts the rows exactly if they are the index of a namespace in which no file name ends in
      white space; the two maps are then that namespace. */
  method ReadIndex(rows: seq<Row>) returns (ok: bool, ids: Entries, paths: Lookup)
    ensures ok ==> IndexOf(rows, ids) && SameEntries(ids, paths)
    ensures ok <==> exists namespace :: IndexOf(rows, namespace)
  {
    hide Decode, Render, StoredPath, CheckParent, Sensible;
    ids, paths := map[], map[];
    var keys: set<string> := {};
    ghost var metas: seq<Meta> := [];
    for n := 0 to |rows|
      invariant |metas| == n && Reading(rows, metas, ids, keys)
    {
      var d := Decode(rows[n]);
      if d.None? || d.value.id in ids || Render(d.value.path) in keys {
        forall other ensures !IndexOf(rows, other) {
          if IndexOf(rows, other) { NextRow(rows, metas, ids, keys, other); }
        }
        return false, ids, paths;
      }
      ReadNext(rows, metas, ids, keys, d.value);
      ids := ids[d.value.id := d.value];
      keys := keys + {Render(d.value.path)};
      metas := metas + [d.value];
    }
    ReadIsUnique(rows, metas, ids, keys);
    ReadSpells(rows, metas, ids, keys);
    paths := ListPaths(ids);
    ok := CheckParents(ids, paths);
    if ok {
      assert IndexOf(rows, ids) by { ReadIsNamespace(ids); }
    }
  }

  /** pathMap, filled from idMap. */
  method ListPaths(ids: Entries) returns (paths: Lookup)
    requires forall id :: id in ids ==> ids[id].id == id
    requires forall a, b {:trigger Unique(ids, a, b)} :: a in ids && b in ids ==> Unique(ids, a, b)
    ensures SameEntries(ids, paths)
  {
    paths := map[];
    var todo := ids.Keys;
    assert ids - todo == map[];
    while todo != {}
      invariant todo <= ids.Keys && SameEntries(ids - todo, paths)
      decreases |todo|
    {
      var id :| id in todo;
      KeyHasEntry(ids - todo, paths, KeyOf(ids[id]));
      assert forall x :: x in ids - todo ==> Unique(ids, x, id);
      EntryAdded(ids - todo, paths, ids[id]);
      assert (ids - todo)[id := ids[id]] == ids - (todo - {id});
      paths := paths[KeyOf(ids[id]) := ids[id]];
      todo := todo - {id};
    }
    assert ids - todo == ids;
  }

  method CheckParents(ids: Entries, paths: Lookup) returns (ok: bool)
    requires SameEntries(ids, paths)
    requires forall id :: id in ids ==> Sensible(ids[id])
    requires forall a, b {:trigger Unique(ids, a, b)} :: a in ids && b in ids ==> Unique(ids, a, b)
    ensures ok <==> forall id {:trigger ParentIndexed(ids, id)} :: id in ids ==> ParentIndexed(ids, id)
  {
    hide CheckParent, StoredPath;
    var todo := ids.Keys;
    while todo != {}
      invariant todo <= ids.Keys
      invariant forall id {:trigger ParentIndexed(ids, id)} :: id in ids && id !in todo ==> ParentIndexed(ids, id)
      decreases |todo|
    {
      var id :| id in todo;
      todo := todo - {id};
      CheckParentDecides(ids, paths, ids[id].path);
      if CheckParent(paths, ids[id].path).Some? {
        assert !ParentIndexed(ids, id);
        return false;
      }
    }
    ok := true;
  }

  lemma ReadIsNamespace(ids: Entries)
    requires forall id :: id in ids ==> ids[id].id == id && Sensible(ids[id])
    requires forall a, b {:trigger Unique(ids, a, b)} :: a in ids && b in ids ==> Unique(ids, a, b)
    requires forall id {:trigger ParentIndexed(ids, id)} :: id in ids ==> ParentIndexed(ids, id)
    ensures NamespaceOk(ids)
  {
  }
}
