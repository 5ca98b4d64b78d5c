/** Backing up and restoring: which archives a backup writes, and when loading one gives the store back. */
module Backups {
  import opened Paths
  import opened Disk
  import opened Namespace
  import opened Store
  import opened EntryMaps
  import opened IndexFiles
  import opened Archives
  import opened Restoring

  /** The name of a file in the archive: its path without the leading slash. */
  function ArchiveName(p: Path): string
    requires p != []
  {
    Render(p)[1..]
  }

  /** The member of a file. */
  ghost predicate IsMember(t: Tree, ids: Entries, id: Id, item: Item) {
    && id in ids && !ids[id].isDir && ids[id].path != [] && Matches(t, ids[id])
    && item == FileItem(ArchiveName(ids[id].path), t[ids[id].path].content.bytes)
  }

  /** An archive of the store: its index, then every file once, in the order `order`. */
  ghost predicate IsBackup(items: seq<Item>, t: Tree, ids: Entries, metas: seq<Meta>, order: seq<Id>) {
    && |items| == |order| + 1 && items[0] == IndexItem(RowsOf(metas)) && Lists(metas, ids)
    && MembersOf(t, ids, items, order)
    && (forall id :: id in ids && !ids[id].isDir ==> id in order)
  }

  /** The members after the index are those of `order`, which names no file twice. */
  ghost predicate MembersOf(t: Tree, ids: Entries, items: seq<Item>, order: seq<Id>) {
    && |items| == |order| + 1
    && (forall k {:trigger IsMember(t, ids, order[k], items[k + 1])} :: 0 <= k < |order| ==> IsMember(t, ids, order[k], items[k + 1]))
    && (forall i, j :: 0 <= i < j < |order| ==> order[i] != order[j])
  }

  lemma NextMember(t: Tree, ids: Entries, items: seq<Item>, order: seq<Id>, id: Id)
    requires MembersOf(t, ids, items, order) && id in ids && !ids[id].isDir && ids[id].path != [] && Matches(t, ids[id])
    requires id !in order
    ensures MembersOf(t, ids, items + [FileItem(ArchiveName(ids[id].path), t[ids[id].path].content.bytes)], order + [id])
  {
    hide ArchiveName;
    var items', order' := items + [FileItem(ArchiveName(ids[id].path), t[ids[id].path].content.bytes)], order + [id];
    forall k | 0 <= k < |order'| ensures IsMember(t, ids, order'[k], items'[k + 1]) {
      if k < |order| { assert IsMember(t, ids, order[k], items[k + 1]); }
    }
  }

  // ----- Names that survive -----

  /** The file's name reaches the archive and comes back unchanged. */
  predicate Portable(m: Meta) {
    m.isDir || m.path == [] || (!StartsInSpace(m.path[0]) && !EndsInSpace(Last(m.path)))
  }

  ghost predicate AllPortable(ids: Entries) {
    forall id :: id in ids ==> Portable(ids[id])
  }

  lemma NameParts(p: Path)
    requires StoredPath(p) && p != []
    ensures Render(p) == "/" + ArchiveName(p) && Split(ArchiveName(p)) == p && ArchiveName(p) != ""
    ensures ArchiveName(p)[0] == p[0][0] && ArchiveName(p)[|ArchiveName(p)| - 1] == Last(p)[|Last(p)| - 1]
    ensures p[0] != "" && Last(p) != ""
  {
    hide IsSpace;
    StoredIsClean(p);
    SplitRender(p);
    RenderLast(p);
    assert StoredName(p[0]) && StoredName(Last(p));
    var n := ArchiveName(p);
    assert Render(p) == "/" + (p[0] + Render(p[1..]));
    assert n == p[0] + Render(p[1..]);
    assert ("/" + n)[1..] == n;
    assert SplitCons('/', Split(n)) == [""] + Split(n);
    assert ([""] + p)[1..] == p && ([""] + Split(n))[1..] == Split(n);
  }

  /** A file name comes back exactly if it neither starts nor ends in white space; otherwise something
      strictly shorter comes back. */
  lemma NameReturns(p: Path)
    requires StoredPath(p) && p != []
    ensures !StartsInSpace(p[0]) && !EndsInSpace(Last(p)) ==> ItemPath(ArchiveName(p)) == Some(p)
    ensures !(!StartsInSpace(p[0]) && !EndsInSpace(Last(p))) && ItemPath(ArchiveName(p)).Some? ==>
      |Render(ItemPath(ArchiveName(p)).value)| < |Render(p)|
  {
    hide IsSpace, TrimSpace, Render, ArchiveName, Split, Clean;
    var n := ArchiveName(p);
    NameParts(p);
    TrimStays(n);
    if TrimSpace(n) == n {
      NameParses(n, p);
    } else if Parse(TrimSpace(n)).Some? {
      RenderedLength(TrimSpace(n));
    }
  }

  lemma NameParses(n: string, p: Path)
    requires StoredPath(p) && Split(n) == p
    requires Render(p) == "/" + n
    ensures Parse(n) == Some(p)
  {
    hide Split, Render, Clean;
    StoredIsClean(p);
    CleanKeeps(p);
    RenderHasNoForbidden(p);
    assert forall c :: c in n ==> c in "/" + n;
    forall i | 0 <= i < |p| ensures !Reserved(p[i]) {
      assert StoredName(p[i]);
    }
  }

  // ----- What a backup unpacks to -----

  ghost predicate IsFileAt(t: Tree, ids: Entries, done: set<Id>, p: Path) {
    exists id :: id in done && id in ids && !ids[id].isDir && ids[id].path == p
  }

  ghost predicate RebuiltAt(s: Tree, t: Tree, ids: Entries, done: set<Id>, p: Path) {
    p in s ==>
      if IsFileAt(t, ids, done, p) then p in t && s[p] == t[p]
      else s[p].Dir? && (p == [] || IsDirectory(ids, p))
  }

  /** The files of `done` and the directories above them have been unpacked. */
  ghost predicate Rebuilding(s: Tree, t: Tree, ids: Entries, done: set<Id>) {
    && Closed(s)
    && (forall p {:trigger RebuiltAt(s, t, ids, done, p)} :: RebuiltAt(s, t, ids, done, p))
    && (forall id :: id in done ==> id in ids && !ids[id].isDir && ids[id].path in s)
  }

  lemma NoDirectoryAtFile(ids: Entries, id: Id)
    requires NamespaceOk(ids) && id in ids && !ids[id].isDir
    ensures !IsDirectory(ids, ids[id].path)
  {
    forall d | d in ids && ids[d].path == ids[id].path ensures !ids[d].isDir {
      assert Unique(ids, d, id);
    }
  }

  /** Unpacking the next file succeeds: nothing is in its way. */
  lemma RebuildNext(s: Tree, t: Tree, ids: Entries, done: set<Id>, id: Id)
    requires NamespaceOk(ids) && Rebuilding(s, t, ids, done) && id in ids && !ids[id].isDir && Matches(t, ids[id])
    ensures ids[id].path != []
    ensures
      var r := PutFile(s, ids[id].path, t[ids[id].path].content.bytes);
      r.Some? && Rebuilding(r.value, t, ids, done + {id})
  {
    var p, b := ids[id].path, t[ids[id].path].content.bytes;
    assert WellFormed(ids, id);
    NoDirectoryAtFile(ids, id);
    MakeAllMakes(s, Parent(p));
    forall a ensures !FileAbove(s, Parent(p), a) {
      assert RebuiltAt(s, t, ids, done, a);
      if a <= Parent(p) && a != [] {
        AncestorIndexed(ids, id, a);
        DirectoryIsNoFile(t, ids, done, a);
      }
    }
    var m := MakeAll(s, Parent(p)).value;
    assert MadeAt(s, Parent(p), m, p) && RebuiltAt(s, t, ids, done, p);
    PutFilePuts(s, p, b);
    var r := PutFile(s, p, b).value;
    forall q ensures RebuiltAt(r, t, ids, done + {id}, q) {
      RebuiltNextAt(s, t, ids, done, id, r, q);
    }
    forall x | x in done + {id} ensures ids[x].path in r {
      assert PutAtEntry(s, p, File(Data(b)), r, ids[x].path);
    }
  }

  lemma DirectoryIsNoFile(t: Tree, ids: Entries, done: set<Id>, p: Path)
    requires NamespaceOk(ids) && IsDirectory(ids, p)
    ensures !IsFileAt(t, ids, done, p)
  {
    var d :| d in ids && ids[d].path == p && ids[d].isDir;
    forall id | id in done && id in ids && ids[id].path == p ensures ids[id].isDir {
      assert Unique(ids, id, d);
    }
  }

  lemma RebuiltNextAt(s: Tree, t: Tree, ids: Entries, done: set<Id>, id: Id, r: Tree, q: Path)
    requires NamespaceOk(ids) && Rebuilding(s, t, ids, done) && id in ids && !ids[id].isDir && Matches(t, ids[id])
    requires ids[id].path != []
    requires PutAtEntry(s, ids[id].path, File(t[ids[id].path].content), r, q)
    ensures RebuiltAt(r, t, ids, done + {id}, q)
  {
    var p := ids[id].path;
    assert RebuiltAt(s, t, ids, done, q);
    if q == p {
      assert IsFileAt(t, ids, done + {id}, q);
    } else if q in r {
      assert IsFileAt(t, ids, done + {id}, q) <==> IsFileAt(t, ids, done, q) by {
        if IsFileAt(t, ids, done + {id}, q) {
          var x :| x in done + {id} && x in ids && !ids[x].isDir && ids[x].path == q;
          assert x in done;
        }
      }
      if q !in s {
        if q != [] {
          AncestorIndexed(ids, id, q);
          DirectoryIsNoFile(t, ids, done, q);
        } else {
          RootIsNoFile(t, ids, done);
        }
      }
    }
  }

  lemma RootIsNoFile(t: Tree, ids: Entries, done: set<Id>)
    requires NamespaceOk(ids)
    ensures !IsFileAt(t, ids, done, [])
  {
    forall id | id in ids ensures ids[id].path != [] {
      assert WellFormed(ids, id);
    }
  }

  function Done(order: seq<Id>, k: nat): set<Id>
    requires k <= |order|
  {
    set i | 0 <= i < k :: order[i]
  }

  lemma {:induction false} UnpacksTo(items: seq<Item>, t: Tree, ids: Entries, metas: seq<Meta>, order: seq<Id>, k: nat)
    requires NamespaceOk(ids) && IsBackup(items, t, ids, metas, order) && AllPortable(ids) && AllTrimmed(ids) && k <= |order|
    ensures
      var u := Unpack(items[..k + 1]);
      u.Some? && u.value.rows == Some(RowsOf(metas)) && Rebuilding(u.value.tree, t, ids, Done(order, k))
    decreases k
  {
    hide RowOf, Decode, PutFile, ArchiveName, IsSpace, ItemPath, StoragePath, StartsInSpace, EndsInSpace, IndexOf, Rebuilding;
    if k == 0 {
      assert Done(order, 0) == {};
      FirstUnpacks(items, t, ids, metas, order);
    } else {
      var j: nat := k - 1;
      UnpacksTo(items, t, ids, metas, order, j);
      UnpackNext(items, k);
      var st, id := Unpack(items[..k]).value, order[j];
      assert IsMember(t, ids, id, items[j + 1]);
      assert WellFormed(ids, id);
      NameReturns(ids[id].path);
      RebuildNext(st.tree, t, ids, Done(order, j), id);
      assert Done(order, k) == Done(order, j) + {id};
    }
  }

  lemma FirstUnpacks(items: seq<Item>, t: Tree, ids: Entries, metas: seq<Meta>, order: seq<Id>)
    requires NamespaceOk(ids) && IsBackup(items, t, ids, metas, order) && AllTrimmed(ids)
    ensures
      var u := Unpack(items[..1]);
      u.Some? && u.value.rows == Some(RowsOf(metas)) && Rebuilding(u.value.tree, t, ids, {})
  {
    hide RowOf, Decode;
    assert items[..0] == [];
    UnpackNext(items, 0);
    assert Spells(RowsOf(metas), metas);
    assert IndexOf(RowsOf(metas), ids);
    EmptyClosed();
    forall p ensures RebuiltAt(EMPTY, t, ids, {}, p) { }
  }

  // ----- The archive of a store with portable names is accepted, and gives the store back -----

  /** The indexed part of the tree. */
  ghost function IndexedPart(t: Tree, ids: Entries): (s: Tree)
    ensures forall q :: q in s <==> q in t && (q == [] || Indexes(ids, q))
    ensures forall q :: q in s ==> s[q] == t[q]
  {
    t - (set q | q in t && q != [] && !Indexes(ids, q))
  }

  lemma IndexedPartExact(t: Tree, ids: Entries)
    requires Closed(t) && NamespaceOk(ids) && OnDisk(t, ids)
    ensures Exact(IndexedPart(t, ids), ids)
  {
    var s := IndexedPart(t, ids);
    forall q ensures HasParent(s, q) {
      assert HasParent(t, q);
      if q in s && q != [] && Parent(q) != [] {
        var id :| id in ids && ids[id].path == q;
        assert ParentIndexed(ids, id);
        var d :| d in ids && ids[d].path == Parent(q) && ids[d].isDir;
        assert Indexes(ids, Parent(q));
      }
    }
    forall id | id in ids ensures Matches(s, ids[id]) {
      assert Matches(t, ids[id]) && Indexes(ids, ids[id].path);
    }
  }

  lemma RebuiltCompletes(s: Tree, t: Tree, ids: Entries, done: set<Id>)
    requires Closed(t) && NamespaceOk(ids) && OnDisk(t, ids) && Rebuilding(s, t, ids, done)
    requires forall id :: id in ids && !ids[id].isDir ==> id in done
    ensures Completed(s, ids, IndexedPart(t, ids))
  {
    var x := IndexedPart(t, ids);
    IndexedPartExact(t, ids);
    forall p ensures CompletedAt(s, ids, x, p) {
      assert RebuiltAt(s, t, ids, done, p);
      if p in s {
        if IsFileAt(t, ids, done, p) {
          assert Indexes(ids, p);
        } else if p != [] {
          var d :| d in ids && ids[d].path == p && ids[d].isDir;
          assert Matches(t, ids[d]) && Indexes(ids, p);
        }
      } else if p in x && p != [] {
        var id :| id in ids && ids[id].path == p;
        assert Matches(t, ids[id]);
      }
    }
  }

  lemma PortableIsTrimmed(ids: Entries)
    requires AllPortable(ids)
    ensures AllTrimmed(ids)
  {
    hide IsSpace;
  }

  lemma AcceptedIfPortable(items: seq<Item>, t: Tree, ids: Entries, paths: Lookup, metas: seq<Meta>, order: seq<Id>)
    requires Consistent(t, ids, paths) && IsBackup(items, t, ids, metas, order) && AllPortable(ids)
    ensures Restores(items, ids, IndexedPart(t, ids))
  {
    hide RowOf, Decode, PutFile, ArchiveName, IsSpace, Rebuilding, Consistent;
    assert Closed(t) && NamespaceOk(ids) && OnDisk(t, ids) by { ConsistentParts(t, ids, paths); }
    PortableIsTrimmed(ids);
    UnpacksTo(items, t, ids, metas, order, |order|);
    assert items[..|order| + 1] == items;
    DoneAll(ids, order);
    RebuiltCompletes(Unpack(items).value.tree, t, ids, Done(order, |order|));
    IndexedPartExact(t, ids);
    IndexReadsBack(metas, ids);
  }

  lemma ConsistentParts(t: Tree, ids: Entries, paths: Lookup)
    requires Consistent(t, ids, paths)
    ensures Closed(t) && NamespaceOk(ids) && OnDisk(t, ids)
  {
  }

  lemma DoneAll(ids: Entries, order: seq<Id>)
    requires forall id :: id in ids && !ids[id].isDir ==> id in order
    ensures forall id :: id in ids && !ids[id].isDir ==> id in Done(order, |order|)
  {
    forall id | id in ids && !ids[id].isDir ensures id in Done(order, |order|) {
      var i :| 0 <= i < |order| && order[i] == id;
    }
  }

  // ----- An archive with a name that is not portable is refused -----

  ghost predicate IsSource(t: Tree, ids: Entries, id: Id, item: Item, p: Path) {
    IsMember(t, ids, id, item) && ItemPath(ArchiveName(ids[id].path)) == Some(p)
  }

  lemma FirstTree(items: seq<Item>, t: Tree, ids: Entries, metas: seq<Meta>, order: seq<Id>)
    requires IsBackup(items, t, ids, metas, order) && Unpack(items[..1]).Some?
    ensures Unpack(items[..1]).value.tree == EMPTY
  {
    assert items[..0] == [];
    UnpackNext(items, 0);
  }

  /** A file lies only where a member put one. */
  lemma {:induction false} FilesCome(items: seq<Item>, t: Tree, ids: Entries, metas: seq<Meta>, order: seq<Id>,
      k: nat, p: Path)
    requires NamespaceOk(ids) && IsBackup(items, t, ids, metas, order) && k <= |order|
    requires Unpack(items[..k + 1]).Some?
    requires p in Unpack(items[..k + 1]).value.tree && Unpack(items[..k + 1]).value.tree[p].File?
    ensures exists j :: 0 <= j < k && IsSource(t, ids, order[j], items[j + 1], p)
    decreases k
  {
    hide RowOf, Decode, ArchiveName, IsSpace, PutFile, StoragePath;
    if k == 0 {
      FirstTree(items, t, ids, metas, order);
    } else {
      var j: nat := k - 1;
      assert items[..k + 1][..k] == items[..k];
      var st, id := Unpack(items[..k]).value, order[j];
      UnpackNext(items, k);
      assert IsMember(t, ids, id, items[j + 1]);
      assert items[..j + 1] == items[..k];
      UnpackedClosed(items[..k]);
      var target := ItemPath(ArchiveName(ids[id].path)).value;
      PutFilePuts(st.tree, target, t[ids[id].path].content.bytes);
      var r := Unpack(items[..k + 1]).value.tree;
      assert PutAtEntry(st.tree, target, File(Data(t[ids[id].path].content.bytes)), r, p);
      if p == target {
        assert IsSource(t, ids, order[j], items[j + 1], p);
      } else {
        assert MadeAt(st.tree, Parent(target), r, p);
        FilesCome(items, t, ids, metas, order, j, p);
      }
    }
  }

  ghost predicate Bounded(ids: Entries, bound: nat) {
    forall id :: id in ids ==> |Render(ids[id].path)| <= bound
  }

  /** If the archive is acceptable, every file name is portable: the longest one that were not would have to
      come from a longer one. */
  lemma {:induction false} NamesSurvive(items: seq<Item>, t: Tree, ids: Entries, metas: seq<Meta>, order: seq<Id>,
      s: Tree, bound: nat, id: Id)
    requires NamespaceOk(ids) && IsBackup(items, t, ids, metas, order) && Restores(items, ids, s)
    requires Bounded(ids, bound) && id in ids && !ids[id].isDir
    ensures ids[id].path != [] && ItemPath(ArchiveName(ids[id].path)) == Some(ids[id].path)
    decreases bound - |Render(ids[id].path)|
  {
    hide RowOf, Decode, ArchiveName, IsSpace, Unpack, IndexOf, StoragePath, ItemPath;
    var p := ids[id].path;
    assert WellFormed(ids, id) && Matches(s, ids[id]);
    NoDirectoryAtFile(ids, id);
    assert CompletedAt(Unpack(items).value.tree, ids, s, p);
    assert items[..|order| + 1] == items;
    FilesCome(items, t, ids, metas, order, |order|, p);
    var j :| 0 <= j < |order| && IsSource(t, ids, order[j], items[j + 1], p);
    var x := order[j];
    assert WellFormed(ids, x) && Unique(ids, x, id);
    NameReturns(ids[x].path);
    if |Render(p)| < |Render(ids[x].path)| {
      NamesSurvive(items, t, ids, metas, order, s, bound, x);
    }
  }

  lemma {:induction false} BoundExists(ids: Entries) returns (bound: nat)
    ensures Bounded(ids, bound)
    decreases |ids|
  {
    hide Render;
    bound := 0;
    if ids != map[] {
      var id :| id in ids;
      var rest := ids - {id};
      assert rest.Keys == ids.Keys - {id};
      bound := BoundExists(rest);
      bound := if |Render(ids[id].path)| > bound then |Render(ids[id].path)| else bound;
      assert forall x :: x in ids ==> x == id || (x in rest && rest[x] == ids[x]);
    }
  }

  lemma PortableIfAccepted(items: seq<Item>, t: Tree, ids: Entries, paths: Lookup, metas: seq<Meta>, order: seq<Id>)
    requires Consistent(t, ids, paths) && IsBackup(items, t, ids, metas, order) && Acceptable(items)
    ensures AllPortable(ids)
  {
    hide RowOf, Decode, ArchiveName, IsSpace, Unpack, Render, StoragePath, ItemPath;
    var other, s :| Restores(items, other, s);
    FirstRows(items, t, ids, metas, order);
    OnlyIndex(metas, ids, other);
    var bound := BoundExists(ids);
    forall id | id in ids ensures Portable(ids[id]) {
      if !ids[id].isDir {
        NamesSurvive(items, t, ids, metas, order, s, bound, id);
        assert WellFormed(ids, id);
        NameReturns(ids[id].path);
      }
    }
  }

  /** Files do not change which index was read. */
  lemma {:induction false} RowsStay(items: seq<Item>, t: Tree, ids: Entries, metas: seq<Meta>, order: seq<Id>, k: nat)
    requires IsBackup(items, t, ids, metas, order) && k <= |order| && Unpack(items[..k + 1]).Some?
    ensures Unpack(items[..k + 1]).value.rows == Some(RowsOf(metas))
    decreases k
  {
    hide RowOf, Decode, ArchiveName, PutAt, StoragePath, ItemPath;
    assert items[..k + 1][..k] == items[..k];
    UnpackNext(items, k);
    if k == 0 {
      assert items[..0] == [];
    } else {
      var j: nat := k - 1;
      assert items[..j + 1] == items[..k];
      RowsStay(items, t, ids, metas, order, j);
      assert IsMember(t, ids, order[j], items[j + 1]);
    }
  }

  lemma FirstRows(items: seq<Item>, t: Tree, ids: Entries, metas: seq<Meta>, order: seq<Id>)
    requires IsBackup(items, t, ids, metas, order) && Unpack(items).Some?
    ensures Unpack(items).value.rows == Some(RowsOf(metas))
  {
    hide RowOf, Unpack;
    assert items[..|order| + 1] == items;
    RowsStay(items, t, ids, metas, order, |order|);
  }

  // ----- The main results -----

  /** Load accepts the archive of a store exactly if no file path of the store starts or ends in white
      space. */
  lemma BackupLoadsIff(items: seq<Item>, t: Tree, ids: Entries, paths: Lookup, metas: seq<Meta>, order: seq<Id>)
    requires Consistent(t, ids, paths) && IsBackup(items, t, ids, metas, order)
    ensures Acceptable(items) <==> AllPortable(ids)
  {
    hide Restores, Consistent, IsBackup, AllPortable;
    if AllPortable(ids) {
      AcceptedIfPortable(items, t, ids, paths, metas, order);
    }
    if Acceptable(items) {
      PortableIfAccepted(items, t, ids, paths, metas, order);
    }
  }

  /** Loading the archive of a store gives the same entries and, for each of them, the same node: file
      contents and empty directories included. */
  lemma BackupLoadIsIdentity(items: seq<Item>, t: Tree, ids: Entries, paths: Lookup, metas: seq<Meta>, order: seq<Id>,
      other: Entries, s: Tree)
    requires Consistent(t, ids, paths) && IsBackup(items, t, ids, metas, order) && Restores(items, other, s)
    ensures other == ids && s == IndexedPart(t, ids)
  {
    hide RowOf, Decode, ArchiveName, IsSpace, Unpack, Render, StoragePath, ItemPath, PutFile;
    FirstRows(items, t, ids, metas, order);
    OnlyIndex(metas, ids, other);
    PortableIfAccepted(items, t, ids, paths, metas, order);
    PortableIsTrimmed(ids);
    UnpacksTo(items, t, ids, metas, order, |order|);
    assert items[..|order| + 1] == items;
    var x, done := IndexedPart(t, ids), Done(order, |order|);
    var unpacked := Unpack(items).value.tree;
    forall p ensures AgreeAt(s, x, p) {
      SameNode(unpacked, t, ids, done, s, p);
    }
    AgreeEverywhere(s, x);
  }

  lemma SameNode(unpacked: Tree, t: Tree, ids: Entries, done: set<Id>, s: Tree, p: Path)
    requires Closed(t) && NamespaceOk(ids) && OnDisk(t, ids) && Rebuilding(unpacked, t, ids, done)
    requires Completed(unpacked, ids, s) && Exact(s, ids)
    ensures AgreeAt(s, IndexedPart(t, ids), p)
  {
    assert CompletedAt(unpacked, ids, s, p) && RebuiltAt(unpacked, t, ids, done, p);
    if p in s && p != [] {
      assert Indexes(ids, p);
      var id :| id in ids && ids[id].path == p;
      assert Matches(t, ids[id]) && Matches(s, ids[id]);
    }
    if p in t && p != [] && Indexes(ids, p) {
      var id :| id in ids && ids[id].path == p;
      assert Matches(s, ids[id]);
    }
  }
}
