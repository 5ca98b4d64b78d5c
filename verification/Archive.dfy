/** Backup archives as sequences of items, and what unpacking one into an empty directory gives. */
module Archives {
  import opened Paths
  import opened Disk
  import opened Namespace
  import opened Store
  import opened IndexFiles

  /** An archive member. Unsupported stands for whatever extraction refuses outright: another type flag, an
      index that is no JSON, an illegal mode. */
  datatype Item =
    | IndexItem(rows: seq<Row>)
    | FileItem(name: string, bytes: seq<byte>)
    | DirItem(name: string)
    | Unsupported

  /** The staged tree, relative to the staging directory, and the rows of the last index. */
  datatype Unpacked = Unpacked(tree: Tree, rows: Option<seq<Row>>)

  const EMPTY: Tree := map[[] := Dir]

  // ----- MkdirAll and file creation -----

  function MakeAll(s: Tree, p: Path): Option<Tree>
    decreases |p|
  {
    if p == [] then Some(s)
    else
      match MakeAll(s, Parent(p))
      case None => None
      case Some(s') =>
        if p !in s' then Some(s'[p := Dir]) else if s'[p].Dir? then Some(s') else None
  }

  function PutFile(s: Tree, p: Path, bytes: seq<byte>): Option<Tree>
    requires p != []
  {
    match MakeAll(s, Parent(p))
    case None => None
    case Some(s') => if p in s' && s'[p].Dir? then None else Some(s'[p := File(Data(bytes))])
  }

  ghost predicate MadeAt(s: Tree, p: Path, s': Tree, q: Path) {
    AgreeAt(s', s, q) || (q <= p && q !in s && IsDir(s', q))
  }

  predicate FileAbove(s: Tree, p: Path, a: Path) {
    a <= p && a in s && s[a].File?
  }

  /** What MkdirAll makes: the missing directories up to p, and nothing else; it fails only on a file. */
  lemma {:induction false} MakeAllMakes(s: Tree, p: Path)
    requires Closed(s)
    ensures MakeAll(s, p).None? <==> exists a :: FileAbove(s, p, a)
    ensures MakeAll(s, p).Some? ==>
      var s' := MakeAll(s, p).value;
      Closed(s') && IsDir(s', p) && forall q {:trigger MadeAt(s, p, s', q)} :: MadeAt(s, p, s', q)
    decreases |p|
  {
    if p != [] {
      var up := Parent(p);
      MakeAllMakes(s, up);
      forall a ensures FileAbove(s, p, a) <==> FileAbove(s, up, a) || (a == p && FileAbove(s, p, p)) {
        if a <= p && a != p { assert a <= up; }
      }
      if MakeAll(s, up).Some? {
        var s1 := MakeAll(s, up).value;
        assert MadeAt(s, up, s1, p);
        if p !in s1 { AddedClosed(s1, p, Dir); }
        assert FileAbove(s, p, p) <==> MakeAll(s, p).None?;
        if MakeAll(s, p).Some? {
          var s' := MakeAll(s, p).value;
          forall q ensures MadeAt(s, p, s', q) {
            assert MadeAt(s, up, s1, q);
          }
        }
      } else {
        var a :| FileAbove(s, up, a);
        assert FileAbove(s, p, a);
      }
    } else {
      assert forall a :: FileAbove(s, p, a) ==> a == [];
    }
  }

  ghost predicate PutAtEntry(s: Tree, p: Path, n: Node, s': Tree, q: Path)
    requires p != []
  {
    if q == p then q in s' && s'[q] == n else MadeAt(s, Parent(p), s', q)
  }

  lemma PutFilePuts(s: Tree, p: Path, bytes: seq<byte>)
    requires Closed(s) && p != []
    ensures PutFile(s, p, bytes).Some? ==>
      var s' := PutFile(s, p, bytes).value;
      Closed(s') && forall q {:trigger PutAtEntry(s, p, File(Data(bytes)), s', q)} :: PutAtEntry(s, p, File(Data(bytes)), s', q)
  {
    MakeAllMakes(s, Parent(p));
    if PutFile(s, p, bytes).Some? {
      var m := MakeAll(s, Parent(p)).value;
      var s' := PutFile(s, p, bytes).value;
      if p !in m {
        AddedClosed(m, p, File(Data(bytes)));
      } else {
        OverwrittenClosed(m, p, Data(bytes));
      }
      forall q ensures PutAtEntry(s, p, File(Data(bytes)), s', q) {
        assert MadeAt(s, Parent(p), m, q);
      }
    }
  }

  lemma OverwrittenClosed(s: Tree, p: Path, c: Content)
    requires Closed(s) && p in s && s[p].File?
    ensures Closed(s[p := File(c)])
  {
    var s' := s[p := File(c)];
    forall q ensures HasParent(s', q) {
      assert HasParent(s, q);
      if q in s && q != [] && Parent(q) == p { FileIsLeaf(s, p, q); }
    }
  }

  // ----- Unpacking -----

  /** Where an item of this name goes. */
  function ItemPath(name: string): Option<Path> {
    if StoragePath(name) == Some([]) then None else StoragePath(name)
  }

  ghost predicate Readable(rows: seq<Row>) {
    exists ids :: IndexOf(rows, ids)
  }

  ghost function UnpackItem(st: Unpacked, item: Item): Option<Unpacked> {
    match item
    case IndexItem(rows) => if Readable(rows) then Some(st.(rows := Some(rows))) else None
    case FileItem(name, bytes) => WithTree(st, if ItemPath(name).None? then None else PutAt(st.tree, ItemPath(name).value, bytes))
    case DirItem(name) => WithTree(st, if ItemPath(name).None? then None else MakeAll(st.tree, ItemPath(name).value))
    case Unsupported => None
  }

  function PutAt(s: Tree, p: Path, bytes: seq<byte>): Option<Tree> {
    if p == [] then None else PutFile(s, p, bytes)
  }

  function WithTree(st: Unpacked, s: Option<Tree>): Option<Unpacked> {
    match s case None => None case Some(tree) => Some(st.(tree := tree))
  }

  ghost function Unpack(items: seq<Item>): Option<Unpacked> {
    if items == [] then Some(Unpacked(EMPTY, None))
    else
      var n: nat := |items| - 1;
      match Unpack(items[..n])
      case None => None
      case Some(st) => UnpackItem(st, items[n])
  }

  // ----- What unpacking means -----

  /** The member is, or lies below, the path. */
  predicate Reaches(item: Item, p: Path) {
    (item.FileItem? || item.DirItem?) && ItemPath(item.name).Some? && p <= ItemPath(item.name).value
  }

  predicate FileFor(item: Item, p: Path) {
    item.FileItem? && ItemPath(item.name) == Some(p)
  }

  /** A file at a path where the other member needs a directory. */
  predicate Clash(a: Item, b: Item, p: Path) {
    FileFor(a, p) && Reaches(b, p) && !FileFor(b, p)
  }

  ghost predicate Clashing(items: seq<Item>) {
    exists i, j, p :: 0 <= i < |items| && 0 <= j < |items| && Clash(items[i], items[j], p)
  }

  ghost predicate Supported(item: Item) {
    match item
    case IndexItem(rows) => Readable(rows)
    case FileItem(name, _) => ItemPath(name).Some?
    case DirItem(name) => ItemPath(name).Some?
    case Unsupported => false
  }

  ghost predicate Reached(items: seq<Item>, p: Path) {
    exists i :: 0 <= i < |items| && Reaches(items[i], p)
  }

  ghost predicate LastFile(items: seq<Item>, i: nat, p: Path) {
    i < |items| && FileFor(items[i], p) && forall j :: i < j < |items| ==> !FileFor(items[j], p)
  }

  ghost predicate LastIndex(items: seq<Item>, i: nat) {
    i < |items| && items[i].IndexItem? && forall j :: i < j < |items| ==> !items[j].IndexItem?
  }

  /** The entry at p: there for whatever is or lies below it, and a file with the content of the last member there. */
  ghost predicate UnpackedAt(items: seq<Item>, s: Tree, p: Path) {
    && (p in s <==> p == [] || Reached(items, p))
    && (p in s && s[p].File? ==> exists i: nat :: LastFile(items, i, p))
    && (forall i: nat {:trigger LastFile(items, i, p)} :: LastFile(items, i, p) ==> p in s && s[p] == File(Data(items[i].bytes)))
  }

  ghost predicate UnpacksTo(items: seq<Item>, st: Unpacked) {
    && Closed(st.tree)
    && (forall p {:trigger UnpackedAt(items, st.tree, p)} :: UnpackedAt(items, st.tree, p))
    && (forall i: nat {:trigger LastIndex(items, i)} :: LastIndex(items, i) ==> st.rows == Some(items[i].rows))
    && (st.rows.Some? ==> exists i: nat :: LastIndex(items, i))
  }

  /** An archive can be unpacked if and only if every member is supported and none needs a directory where another
      one is a file, in whatever order they come; and then it unpacks to what its members say. */
  lemma {:induction false} UnpackIff(items: seq<Item>)
    ensures Unpack(items).Some? <==> (forall i :: 0 <= i < |items| ==> Supported(items[i])) && !Clashing(items)
    ensures Unpack(items).Some? ==> UnpacksTo(items, Unpack(items).value)
  {
    hide ItemPath, Readable, PutFile, MakeAll;
    if items == [] {
      NothingUnpacked();
    } else {
      var n: nat := |items| - 1;
      var init, item := items[..n], items[n];
      UnpackIff(init);
      assert items == init + [item];
      MoreSupported(init, item);
      MoreClashing(init, item);
      if Unpack(init).Some? && Supported(item) {
        var st := Unpack(init).value;
        ItemUnpacked(init, st, item);
      }
    }
  }

  lemma NothingUnpacked()
    ensures UnpacksTo([], Unpacked(EMPTY, None))
  {
    forall p ensures UnpackedAt([], EMPTY, p) { }
    forall p ensures HasParent(EMPTY, p) { }
  }

  lemma MoreSupported(items: seq<Item>, item: Item)
    ensures (forall i :: 0 <= i < |items + [item]| ==> Supported((items + [item])[i])) <==>
      (forall i :: 0 <= i < |items| ==> Supported(items[i])) && Supported(item)
  {
    hide Supported;
    var all := items + [item];
    assert all[|items|] == item;
    forall i | 0 <= i < |items| ensures all[i] == items[i] { }
  }

  /** Whether one more member clashes with those before it, in either direction. */
  lemma MoreClashing(items: seq<Item>, item: Item)
    ensures Clashing(items + [item]) <==>
      Clashing(items) || ClashesWith(items, item)
  {
    hide Clash;
    var all := items + [item];
    assert all[|items|] == item;
    forall i | 0 <= i < |items| ensures all[i] == items[i] { }
    if Clashing(items) {
      var i, j, p :| 0 <= i < |items| && 0 <= j < |items| && Clash(items[i], items[j], p);
      assert Clash(all[i], all[j], p);
    }
    if i, p :| 0 <= i < |items| && (Clash(items[i], item, p) || Clash(item, items[i], p)) {
      assert Clash(all[i], all[|items|], p) || Clash(all[|items|], all[i], p);
    }
    if Clashing(all) {
      var i, j, p :| 0 <= i < |all| && 0 <= j < |all| && Clash(all[i], all[j], p);
      assert !Clash(item, item, p) by { NoSelfClash(item, p); }
    }
  }

  lemma ReachedMore(items: seq<Item>, item: Item, p: Path)
    ensures Reached(items + [item], p) <==> Reached(items, p) || Reaches(item, p)
  {
    hide Reaches;
    var all := items + [item];
    assert all[|items|] == item;
    forall i | 0 <= i < |items| ensures all[i] == items[i] { }
    if Reached(items, p) {
      var i :| 0 <= i < |items| && Reaches(items[i], p);
      assert Reaches(all[i], p);
    }
  }

  lemma LastFileMore(items: seq<Item>, item: Item, p: Path)
    ensures forall i: nat {:trigger LastFile(items + [item], i, p)} {:trigger LastFile(items, i, p)} ::
      LastFile(items + [item], i, p) <==> if FileFor(item, p) then i == |items| else LastFile(items, i, p)
  {
    hide FileFor;
    var all := items + [item];
    assert all[|items|] == item;
    forall i | 0 <= i < |items| ensures all[i] == items[i] { }
  }

  lemma LastIndexMore(items: seq<Item>, item: Item)
    ensures forall i: nat {:trigger LastIndex(items + [item], i)} {:trigger LastIndex(items, i)} ::
      LastIndex(items + [item], i) <==> if item.IndexItem? then i == |items| else LastIndex(items, i)
  {
    var all := items + [item];
    assert all[|items|] == item;
    forall i | 0 <= i < |items| ensures all[i] == items[i] { }
  }

  lemma {:induction false} LastFileExists(items: seq<Item>, i: nat, p: Path) returns (k: nat)
    requires i < |items| && FileFor(items[i], p)
    ensures LastFile(items, k, p)
    decreases |items| - i
  {
    hide FileFor;
    k := i;
    if j :| i < j < |items| && FileFor(items[j], p) {
      k := LastFileExists(items, j, p);
    }
  }

  /** Any file among the members is a file in the tree. */
  lemma FileThere(items: seq<Item>, st: Unpacked, i: nat, p: Path)
    requires UnpacksTo(items, st) && i < |items| && FileFor(items[i], p)
    ensures p in st.tree && st.tree[p].File?
  {
    hide FileFor;
    var k := LastFileExists(items, i, p);
    assert UnpackedAt(items, st.tree, p);
  }

  ghost predicate ClashesWith(items: seq<Item>, item: Item) {
    exists i, p :: 0 <= i < |items| && (Clash(items[i], item, p) || Clash(item, items[i], p))
  }

  lemma ItemUnpacked(items: seq<Item>, st: Unpacked, item: Item)
    requires UnpacksTo(items, st) && !Clashing(items) && Supported(item)
    ensures UnpackItem(st, item).Some? <==> !ClashesWith(items, item)
    ensures UnpackItem(st, item).Some? ==> UnpacksTo(items + [item], UnpackItem(st, item).value)
  {
    hide ItemPath, Readable, PutFile, MakeAll, UnpackedAt, Clashing;
    LastIndexMore(items, item);
    match item
    case IndexItem(rows) =>
      assert (items + [item])[|items|] == item && LastIndex(items + [item], |items|);
      forall p ensures UnpackedAt(items + [item], st.tree, p) {
        assert UnpackedAt(items, st.tree, p);
        EntryMore(items, st.tree, item, st.tree, p);
      }
    case DirItem(name) =>
      var q := ItemPath(name).value;
      DirectoryFits(items, st, item, q);
      if MakeAll(st.tree, q).Some? { DirectoryUnpacked(items, st, item, q); }
    case FileItem(name, bytes) =>
      var q := ItemPath(name).value;
      RootIsNoItem(name);
      FileFits(items, st, item, q);
      if PutFile(st.tree, q, bytes).Some? { FileUnpacked(items, st, item, q); }
  }

  lemma RootIsNoItem(name: string)
    ensures ItemPath(name) != Some([])
  {
  }

  /** What one more member makes of the entry at p. */
  lemma EntryMore(items: seq<Item>, s: Tree, item: Item, s': Tree, p: Path)
    requires UnpackedAt(items, s, p)
    requires p in s' <==> p in s || Reaches(item, p)
    requires FileFor(item, p) ==> p in s' && s'[p] == File(Data(item.bytes))
    requires FileFor(item, p) || AgreeAt(s', s, p) || (p !in s && IsDir(s', p))
    ensures UnpackedAt(items + [item], s', p)
  {
    ReachedMore(items, item, p);
    LastFileMore(items, item, p);
    hide LastFile, FileFor, Reached, Reaches;
    var all := items + [item];
    assert all[|items|] == item;
    if p in s' && s'[p].File? {
      if FileFor(item, p) {
        assert LastFile(all, |items|, p);
      } else {
        var i: nat :| LastFile(items, i, p);
        assert LastFile(all, i, p);
      }
    }
    forall i: nat | LastFile(all, i, p) ensures i < |all| && all[i].FileItem? { LastFileHere(all, i, p); }
    forall i: nat | LastFile(all, i, p) ensures p in s' && s'[p] == File(Data(all[i].bytes)) {
      if !FileFor(item, p) {
        LastFileHere(items, i, p);
        assert all[i] == items[i];
      }
    }
  }

  lemma LastFileHere(items: seq<Item>, i: nat, p: Path)
    requires LastFile(items, i, p)
    ensures i < |items| && items[i].FileItem?
  {
  }

  /** A directory fits unless a file is at or above its path. */
  lemma DirectoryFits(items: seq<Item>, st: Unpacked, item: Item, q: Path)
    requires UnpacksTo(items, st) && item.DirItem? && ItemPath(item.name) == Some(q)
    ensures MakeAll(st.tree, q).Some? <==> !ClashesWith(items, item)
  {
    hide ItemPath, MakeAll, UnpackedAt, LastFile;
    MakeAllMakes(st.tree, q);
    if a :| FileAbove(st.tree, q, a) {
      var i := FileIsMember(items, st, a);
      assert Clash(items[i], item, a);
    }
    if i, p :| 0 <= i < |items| && (Clash(items[i], item, p) || Clash(item, items[i], p)) {
      FileThere(items, st, i, p);
      assert FileAbove(st.tree, q, p);
    }
  }

  lemma DirectoryHere(items: seq<Item>, st: Unpacked, i: nat, q: Path)
    requires UnpacksTo(items, st) && i < |items| && Reaches(items[i], q) && !FileFor(items[i], q)
    ensures Clashing(items) || IsDir(st.tree, q)
  {
    hide ItemPath, LastFile;
    assert UnpackedAt(items, st.tree, q);
    if st.tree[q].File? {
      var k := FileIsMember(items, st, q);
      assert Clash(items[k], items[i], q);
    }
  }

  lemma ProperPrefix(p: Path, q: Path)
    requires q != [] && p != q
    ensures p <= q <==> p <= Parent(q)
  {
    if p <= Parent(q) { assert p == Parent(q)[..|p|] == q[..|p|]; }
  }

  lemma FileIsMember(items: seq<Item>, st: Unpacked, p: Path) returns (i: nat)
    requires UnpacksTo(items, st) && p in st.tree && st.tree[p].File?
    ensures i < |items| && FileFor(items[i], p)
  {
    assert UnpackedAt(items, st.tree, p);
    i :| LastFile(items, i, p);
  }

  /** A file fits unless a file is above its path or a directory at it. */
  lemma FileFits(items: seq<Item>, st: Unpacked, item: Item, q: Path)
    requires UnpacksTo(items, st) && !Clashing(items) && item.FileItem? && ItemPath(item.name) == Some(q) && q != []
    ensures PutFile(st.tree, q, item.bytes).Some? <==> !ClashesWith(items, item)
  {
    hide ItemPath, MakeAll, LastFile;
    var up := Parent(q);
    MakeAllMakes(st.tree, up);
    assert UnpackedAt(items, st.tree, q);
    if a :| FileAbove(st.tree, up, a) {
      var i := FileIsMember(items, st, a);
      assert Clash(items[i], item, a);
    } else {
      assert MadeAt(st.tree, up, MakeAll(st.tree, up).value, q);
      if q in st.tree && st.tree[q].Dir? {
        var i :| 0 <= i < |items| && Reaches(items[i], q);
        if FileFor(items[i], q) { FileThere(items, st, i, q); }
        assert Clash(item, items[i], q);
      }
    }
    if i, p :| 0 <= i < |items| && (Clash(items[i], item, p) || Clash(item, items[i], p)) {
      if Clash(items[i], item, p) {
        FileThere(items, st, i, p);
        ProperPrefix(p, q);
        assert FileAbove(st.tree, up, p);
      } else {
        assert p == q && Reached(items, q);
        DirectoryHere(items, st, i, q);
      }
    }
  }

  lemma DirectoryUnpacked(items: seq<Item>, st: Unpacked, item: Item, q: Path)
    requires UnpacksTo(items, st) && item.DirItem? && ItemPath(item.name) == Some(q) && MakeAll(st.tree, q).Some?
    ensures Closed(MakeAll(st.tree, q).value)
    ensures forall p {:trigger UnpackedAt(items + [item], MakeAll(st.tree, q).value, p)} ::
      UnpackedAt(items + [item], MakeAll(st.tree, q).value, p)
  {
    hide ItemPath, MakeAll, LastFile;
    var s' := MakeAll(st.tree, q).value;
    MakeAllMakes(st.tree, q);
    forall p ensures UnpackedAt(items + [item], s', p) {
      assert UnpackedAt(items, st.tree, p) && MadeAt(st.tree, q, s', p);
      DirectoriesAbove(s', q, p);
      EntryMore(items, st.tree, item, s', p);
    }
  }

  /** Everything above a path that is there is there. */
  lemma {:induction false} DirectoriesAbove(s: Tree, q: Path, p: Path)
    requires Closed(s) && q in s
    ensures p <= q ==> p in s
    decreases |q|
  {
    if p <= q && p != q {
      assert HasParent(s, q) && p <= Parent(q);
      DirectoriesAbove(s, Parent(q), p);
    }
  }

  lemma FileUnpacked(items: seq<Item>, st: Unpacked, item: Item, q: Path)
    requires UnpacksTo(items, st) && item.FileItem? && ItemPath(item.name) == Some(q) && q != []
    requires PutFile(st.tree, q, item.bytes).Some?
    ensures Closed(PutFile(st.tree, q, item.bytes).value)
    ensures forall p {:trigger UnpackedAt(items + [item], PutFile(st.tree, q, item.bytes).value, p)} ::
      UnpackedAt(items + [item], PutFile(st.tree, q, item.bytes).value, p)
  {
    hide ItemPath, MakeAll, LastFile, PutFile;
    var s', file := PutFile(st.tree, q, item.bytes).value, File(Data(item.bytes));
    PutFilePuts(st.tree, q, item.bytes);
    forall p ensures UnpackedAt(items + [item], s', p) {
      assert UnpackedAt(items, st.tree, p);
      assert PutAtEntry(st.tree, q, file, s', p) && PutAtEntry(st.tree, q, file, s', q);
      DirectoriesAbove(s', q, p);
      if p != q { ProperPrefix(p, q); }
      EntryMore(items, st.tree, item, s', p);
    }
  }

  lemma NoSelfClash(item: Item, p: Path)
    ensures !Clash(item, item, p)
  {
  }

  // ----- What validation accepts -----

  /** The entries are exactly the nodes below the root, each with its kind and size. */
  ghost predicate Exact(s: Tree, ids: Entries) {
    && Closed(s) && (forall id {:trigger Matches(s, ids[id])} :: id in ids ==> Matches(s, ids[id]))
    && (forall p {:trigger Indexes(ids, p)} :: p in s && p != [] ==> Indexes(ids, p))
  }

  ghost predicate Indexes(ids: Entries, p: Path) {
    exists id :: id in ids && ids[id].path == p
  }

  /** s' is s with the indexed directories made. */
  ghost predicate Completed(s: Tree, ids: Entries, s': Tree) {
    && (forall p {:trigger CompletedAt(s, ids, s', p)} :: CompletedAt(s, ids, s', p))
    && Closed(s')
  }

  ghost predicate CompletedAt(s: Tree, ids: Entries, s': Tree, p: Path) {
    AgreeAt(s', s, p) || (p !in s && IsDirectory(ids, p) && IsDir(s', p))
  }

  /** An archive is accepted if it unpacks, holds an index, and the index names exactly what was unpacked
      together with the directories it lists. */
  ghost predicate Restores(items: seq<Item>, ids: Entries, s': Tree) {
    && Unpack(items).Some? && Unpack(items).value.rows.Some?
    && IndexOf(Unpack(items).value.rows.value, ids)
    && Completed(Unpack(items).value.tree, ids, s') && Exact(s', ids)
  }

  ghost predicate Acceptable(items: seq<Item>) {
    exists ids, s' :: Restores(items, ids, s')
  }

  lemma EmptyClosed()
    ensures Closed(EMPTY)
  {
    forall p ensures HasParent(EMPTY, p) { }
  }

  lemma {:induction false} UnpackedClosed(items: seq<Item>)
    requires Unpack(items).Some?
    ensures Closed(Unpack(items).value.tree)
    decreases |items|
  {
    hide ItemPath, IndexOf;
    if items == [] {
      EmptyClosed();
    } else {
      var n: nat := |items| - 1;
      UnpackedClosed(items[..n]);
      UnpackedItemClosed(Unpack(items[..n]).value, items[n]);
    }
  }

  lemma UnpackedItemClosed(st: Unpacked, item: Item)
    requires Closed(st.tree) && UnpackItem(st, item).Some?
    ensures Closed(UnpackItem(st, item).value.tree)
  {
    hide ItemPath, IndexOf;
    match item
    case FileItem(name, bytes) => PutFilePuts(st.tree, ItemPath(name).value, bytes);
    case DirItem(name) => MakeAllMakes(st.tree, ItemPath(name).value);
    case _ =>
  }
}
