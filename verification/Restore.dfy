/** Extracting an archive into the transaction directory and validating what it left there. */
module Restoring {
  import opened Paths
  import opened Disk
  import opened Journal
  import opened Recovery
  import opened Swaps
  import opened RootDirectory
  import opened Transactions
  import opened Namespace
  import opened Store
  import opened Effects
  import opened EntryMaps
  import opened IndexFiles
  import opened Archives

  predicate InStaging(t: Tree, q: Path) {
    q in t && TX <= q ==> q == TX || STAGED <= q
  }

  /** The staging directory holds the tree s, and the transaction directory nothing else. */
  ghost predicate Unpacking(t: Tree, pre: Tree, s: Tree) {
    && Staging(t, pre) && Closed(s)
    && (forall p {:trigger Mirrored(t, s, p)} :: Mirrored(t, s, p))
    && (forall q {:trigger InStaging(t, q)} :: InStaging(t, q))
  }

  lemma StagedParent(p: Path)
    requires p != []
    ensures Parent(STAGED + p) == STAGED + Parent(p) && STAGED + p != [] && TX <= STAGED + p && STAGED <= STAGED + p
    ensures STAGED + p != JOURNAL && STAGED + p != TX_INDEX && STAGED + p != JOURNAL_NEW && STAGED + p != TX
  {
    ControlNotOld();
    assert STAGED <= STAGED + p;
    StagedNotOld(STAGED + p);
    assert |TX| < |STAGED + p|;
  }

  lemma SameSuffix(p: Path, q: Path)
    ensures STAGED + p == STAGED + q ==> p == q
  {
    assert (STAGED + p)[|STAGED|..] == p && (STAGED + q)[|STAGED|..] == q;
  }

  /** Writing a node where the staged tree has room for it. */
  lemma StageNode(t: Tree, pre: Tree, s: Tree, p: Path, n: Node)
    requires Unpacking(t, pre, s) && p != []
    requires if p in s then s[p].File? && n.File? else IsDir(s, Parent(p))
    ensures Unpacking(t[STAGED + p := n], pre, s[p := n])
    ensures if STAGED + p in t then t[STAGED + p].File? else IsDir(t, Parent(STAGED + p))
  {
    hide TX, STAGED, JOURNAL, TX_INDEX, JOURNAL_NEW;
    var q := STAGED + p;
    var t', s' := t[q := n], s[p := n];
    StagedParent(p);
    assert Mirrored(t, s, p) && Mirrored(t, s, Parent(p));
    if p in s {
      OverwrittenClosed(t, q, n.content);
      OverwrittenClosed(s, p, n.content);
    } else {
      AddedClosed(t, q, n);
      AddedClosed(s, p, n);
    }
    assert User(t') == User(t);
    forall x ensures Mirrored(t', s', x) {
      assert Mirrored(t, s, x);
      SameSuffix(x, p);
    }
    forall x ensures InStaging(t', x) {
      assert InStaging(t, x);
    }
  }

  lemma UnpackingIsStaging(t: Tree, pre: Tree, s: Tree)
    requires Unpacking(t, pre, s)
    ensures Staging(t, pre)
  {
  }

  // ----- MkdirAll and writing, on disk -----

  method MakeAllAt(root: Root, p: Path, ghost pre: Tree, ghost s: Tree) returns (r: Outcome, ghost s': Tree)
    requires Unpacking(root.tree, pre, s)
    modifies root
    ensures Staging(root.tree, pre)
    ensures r.Done? ==> MakeAll(s, p) == Some(s') && Unpacking(root.tree, pre, s')
    ensures root.reliable ==> r.Done? || r == Failed(Invalid)
    ensures r.Failed? ==> r.error == IO || (r.error == Invalid && MakeAll(s, p).None?)
    decreases |p|
  {
    hide TX, STAGED, JOURNAL, TX_INDEX, JOURNAL_NEW;
    r, s' := Done, s;
    if p == [] { return; }
    r, s' := MakeAllAt(root, Parent(p), pre, s);
    if !r.Done? { return; }
    assert Mirrored(root.tree, s', p);
    var node;
    r, node := root.Lstat(STAGED + p);
    if !r.Done? { return; }
    if node.None? {
      MakeAllMakes(s, Parent(p));
      StagedParent(p);
      StageNode(root.tree, pre, s', p, Dir);
      s' := s'[p := Dir];
      r := root.Mkdir(STAGED + p);
    } else if node.value.File? {
      r := Failed(Invalid);
    }
  }

  method WriteAt(root: Root, p: Path, bytes: seq<byte>, ghost pre: Tree, ghost s: Tree) returns (r: Outcome,
      ghost s': Tree)
    requires Unpacking(root.tree, pre, s) && p != []
    modifies root
    ensures Staging(root.tree, pre)
    ensures r.Done? ==> PutFile(s, p, bytes) == Some(s') && Unpacking(root.tree, pre, s')
    ensures root.reliable ==> r.Done? || r == Failed(Invalid)
    ensures r.Failed? ==> r.error == IO || (r.error == Invalid && PutFile(s, p, bytes).None?)
  {
    hide TX, STAGED, JOURNAL, TX_INDEX, JOURNAL_NEW;
    r, s' := MakeAllAt(root, Parent(p), pre, s);
    if !r.Done? { return; }
    MakeAllMakes(s, Parent(p));
    assert Mirrored(root.tree, s', p);
    var node;
    r, node := root.Lstat(STAGED + p);
    if !r.Done? { return; }
    if node.Some? && node.value.Dir? { return Failed(Invalid), s'; }
    StagedParent(p);
    StageNode(root.tree, pre, s', p, File(Data(bytes)));
    StageNode(root.tree, pre, s', p, File(Torn));
    s' := s'[p := File(Data(bytes))];
    r := root.WriteFile(STAGED + p, Data(bytes));
  }

  // ----- extractArchive -----

  lemma {:induction false} UnpackPrefix(items: seq<Item>, k: nat)
    requires k <= |items| && Unpack(items[..k]).None?
    ensures Unpack(items).None?
    decreases |items| - k
  {
    hide UnpackItem;
    if k == |items| {
      assert items[..k] == items;
    } else {
      assert items[..k + 1][..k] == items[..k];
      UnpackPrefix(items, k + 1);
    }
  }

  lemma UnpackNext(items: seq<Item>, n: nat)
    requires n < |items| && Unpack(items[..n]).Some?
    ensures Unpack(items[..n + 1]) == UnpackItem(Unpack(items[..n]).value, items[n])
  {
    hide UnpackItem;
    assert items[..n + 1][..n] == items[..n];
  }

  /** extractArchive: on success the archive has been unpacked, and the maps are those of its last index. */
  method Extract(root: Root, items: seq<Item>, ghost pre: Tree)
    returns (r: Outcome, rows: Option<seq<Row>>, ids: Entries, paths: Lookup, ghost s: Tree)
    requires Unpacking(root.tree, pre, EMPTY)
    modifies root
    ensures Staging(root.tree, pre)
    ensures r.Done? ==> Unpack(items) == Some(Unpacked(s, rows)) && Unpacking(root.tree, pre, s)
    ensures r.Done? && rows.Some? ==> IndexOf(rows.value, ids) && SameEntries(ids, paths)
    ensures root.reliable ==> r.Done? || r == Failed(Invalid)
    ensures r.Failed? ==> r.error == IO || (r.error == Invalid && Unpack(items).None?)
  {
    hide UnpackItem, IndexOf, Unpacking, Staging, EMPTY;
    r, rows, ids, paths, s := Done, None, map[], map[], EMPTY;
    EmptyUnpacked();
    assert items[..0] == [];
    for n := 0 to |items|
      invariant r.Done? && Unpack(items[..n]) == Some(Unpacked(s, rows)) && Unpacking(root.tree, pre, s)
      invariant rows.Some? ==> IndexOf(rows.value, ids) && SameEntries(ids, paths)
    {
      UnpackNext(items, n);
      r, rows, ids, paths, s := ExtractItem(root, items[n], pre, s, rows, ids, paths);
      if r == Failed(Invalid) { UnpackPrefix(items, n + 1); }
      if !r.Done? { return; }
    }
    UnpackingIsStaging(root.tree, pre, s);
    assert items[..|items|] == items;
  }

  lemma EmptyUnpacked()
    ensures Unpack([]) == Some(Unpacked(EMPTY, None))
  {
  }

  /** extractTarEntry */
  method ExtractItem(root: Root, item: Item, ghost pre: Tree, ghost s: Tree,
        rows: Option<seq<Row>>, ids: Entries, paths: Lookup)
    returns (r: Outcome, rows': Option<seq<Row>>, ids': Entries, paths': Lookup, ghost s': Tree)
    requires Unpacking(root.tree, pre, s)
    requires rows.Some? ==> IndexOf(rows.value, ids) && SameEntries(ids, paths)
    modifies root
    ensures Staging(root.tree, pre)
    ensures r.Done? ==> UnpackItem(Unpacked(s, rows), item) == Some(Unpacked(s', rows')) && Unpacking(root.tree, pre, s')
    ensures r.Done? && rows'.Some? ==> IndexOf(rows'.value, ids') && SameEntries(ids', paths')
    ensures root.reliable ==> r.Done? || r == Failed(Invalid)
    ensures r.Failed? ==> r.error == IO || (r.error == Invalid && UnpackItem(Unpacked(s, rows), item).None?)
  {
    hide IndexOf, Unpacking, Staging, StoragePath, SameEntries;
    r, rows', ids', paths', s' := Done, rows, ids, paths, s;
    UnpackingIsStaging(root.tree, pre, s);
    match item
    case Unsupported =>
      r := Failed(Invalid);
    case IndexItem(index) =>
      var ok;
      ok, ids', paths' := ReadIndex(index);
      if ok { rows' := Some(index); } else { r := Failed(Invalid); }
    case FileItem(name, bytes) =>
      var p := ItemPath(name);
      if p.None? { return Failed(Invalid), rows', ids', paths', s'; }
      assert p.value != [];
      r, s' := WriteAt(root, p.value, bytes, pre, s);
    case DirItem(name) =>
      var p := ItemPath(name);
      if p.None? { return Failed(Invalid), rows', ids', paths', s'; }
      r, s' := MakeAllAt(root, p.value, pre, s);
  }

  // ----- validateRestoredFiles -----

  /** Every directory above an indexed entry is indexed. */
  lemma {:induction false} AncestorIndexed(ids: Entries, id: Id, q: Path)
    requires NamespaceOk(ids) && id in ids && q <= ids[id].path && q != [] && (q != ids[id].path || ids[id].isDir)
    ensures IsDirectory(ids, q)
    decreases |ids[id].path|
  {
    if q != ids[id].path {
      assert ParentIndexed(ids, id);
      var d :| d in ids && ids[d].path == Parent(ids[id].path) && ids[d].isDir;
      AncestorIndexed(ids, d, q);
    }
  }

  /** Some indexed directories have been made. */
  ghost predicate Making(s: Tree, ids: Entries, s1: Tree) {
    Closed(s) && Closed(s1) && forall p {:trigger CompletedAt(s, ids, s1, p)} :: CompletedAt(s, ids, s1, p)
  }

  /** What every tree that validation could accept has in common with what has been made so far. */
  ghost predicate CouldBe(s: Tree, ids: Entries, x: Tree) {
    Completed(s, ids, x) && Exact(x, ids)
  }

  lemma MadeNext(s: Tree, ids: Entries, s1: Tree, id: Id)
    requires NamespaceOk(ids) && Making(s, ids, s1) && id in ids && ids[id].isDir && MakeAll(s1, ids[id].path).Some?
    ensures Making(s, ids, MakeAll(s1, ids[id].path).value)
    ensures forall p :: p in s1 ==> p in MakeAll(s1, ids[id].path).value
    ensures ids[id].path in MakeAll(s1, ids[id].path).value
  {
    var path := ids[id].path;
    var s2 := MakeAll(s1, path).value;
    MakeAllMakes(s1, path);
    forall p ensures CompletedAt(s, ids, s2, p) && (p in s1 ==> p in s2) {
      assert CompletedAt(s, ids, s1, p) && MadeAt(s1, path, s2, p);
      if p !in s1 && p in s2 {
        assert p != [];
        AncestorIndexed(ids, id, p);
      }
    }
  }

  /** A file in the way of an indexed directory stays in the way. */
  lemma MakeFails(s: Tree, ids: Entries, s1: Tree, id: Id, x: Tree)
    requires NamespaceOk(ids) && Making(s, ids, s1) && id in ids && ids[id].isDir && CouldBe(s, ids, x)
    ensures MakeAll(s1, ids[id].path).Some?
  {
    MakeAllMakes(s1, ids[id].path);
    forall a ensures !FileAbove(s1, ids[id].path, a) {
      assert CompletedAt(s, ids, s1, a) && CompletedAt(s, ids, x, a);
      if a != [] && a <= ids[id].path {
        AncestorIndexed(ids, id, a);
        var d :| d in ids && ids[d].path == a && ids[d].isDir;
        assert Matches(x, ids[d]);
      }
    }
  }

  /** The file of an indexed entry must have been unpacked. */
  lemma FileUnpacked(s: Tree, ids: Entries, s1: Tree, id: Id, x: Tree)
    requires NamespaceOk(ids) && Making(s, ids, s1) && id in ids && !ids[id].isDir && CouldBe(s, ids, x)
    ensures ids[id].path in s1
  {
    var p := ids[id].path;
    assert CompletedAt(s, ids, s1, p) && CompletedAt(s, ids, x, p) && Matches(x, ids[id]);
  }

  /** The entry of this path and kind, if there is one, has the node's size. */
  predicate Accounted(paths: Lookup, p: Path, node: Node) {
    Key(p, node.Dir?) in paths &&
    (node.File? ==> node.content.Data? && |node.content.bytes| == paths[Key(p, false)].size)
  }

  lemma NodeAccounted(s: Tree, ids: Entries, paths: Lookup, s1: Tree, p: Path, x: Tree)
    requires NamespaceOk(ids) && SameEntries(ids, paths) && Making(s, ids, s1) && CouldBe(s, ids, x) && p in s1 && p != []
    ensures Accounted(paths, p, s1[p])
  {
    assert CompletedAt(s, ids, s1, p) && CompletedAt(s, ids, x, p);
    if p in s {
      assert Indexes(ids, p);
      var id :| id in ids && ids[id].path == p;
      assert Matches(x, ids[id]) && Listed(ids, paths, id);
    } else {
      var d :| d in ids && ids[d].path == p && ids[d].isDir;
      assert Listed(ids, paths, d);
    }
  }

  lemma AllAccountedIsExact(s: Tree, ids: Entries, paths: Lookup, s1: Tree)
    requires NamespaceOk(ids) && SameEntries(ids, paths) && Making(s, ids, s1)
    requires forall id :: id in ids ==> ids[id].path in s1
    requires forall p {:trigger Accounted(paths, p, s1[p])} :: p in s1 && p != [] ==> Accounted(paths, p, s1[p])
    ensures CouldBe(s, ids, s1)
  {
    forall id | id in ids ensures Matches(s1, ids[id]) {
      var p := ids[id].path;
      assert WellFormed(ids, id) && Accounted(paths, p, s1[p]);
      var k := Key(p, s1[p].Dir?);
      assert Backed(ids, paths, k) && Unique(ids, id, paths[k].id);
    }
    forall p | p in s1 && p != [] ensures Indexes(ids, p) {
      assert Accounted(paths, p, s1[p]) && Backed(ids, paths, Key(p, s1[p].Dir?));
    }
  }

  /** The first loop of validateRestoredFiles: indexed directories are made, and every entry must exist. */
  method MakeDirectories(root: Root, ids: Entries, ghost pre: Tree, ghost s: Tree) returns (r: Outcome, ghost s1: Tree)
    requires NamespaceOk(ids) && Unpacking(root.tree, pre, s)
    modifies root
    ensures Staging(root.tree, pre)
    ensures r.Done? ==> Unpacking(root.tree, pre, s1) && Making(s, ids, s1) && forall id :: id in ids ==> ids[id].path in s1
    ensures root.reliable ==> r.Done? || r == Failed(Invalid)
    ensures r.Failed? ==> r.error == IO || (r.error == Invalid && forall x :: !CouldBe(s, ids, x))
  {
    hide TX, STAGED, JOURNAL, TX_INDEX, JOURNAL_NEW, CouldBe;
    r, s1 := Done, s;
    var todo := ids.Keys;
    while todo != {}
      invariant r.Done? && todo <= ids.Keys && Unpacking(root.tree, pre, s1) && Making(s, ids, s1)
      invariant forall id :: id in ids && id !in todo ==> ids[id].path in s1
      decreases |todo|
    {
      var id :| id in todo;
      todo := todo - {id};
      forall x ensures CouldBe(s, ids, x) ==>
        if ids[id].isDir then MakeAll(s1, ids[id].path).Some? else ids[id].path in s1
      {
        if CouldBe(s, ids, x) {
          if ids[id].isDir { MakeFails(s, ids, s1, id, x); } else { FileUnpacked(s, ids, s1, id, x); }
        }
      }
      if ids[id].isDir {
        ghost var s0 := s1;
        r, s1 := MakeAllAt(root, ids[id].path, pre, s1);
        if !r.Done? { return; }
        MadeNext(s, ids, s0, id);
      }
      assert Mirrored(root.tree, s1, ids[id].path);
      var node;
      r, node := root.Lstat(STAGED + ids[id].path);
      if !r.Done? { return; }
      if node.None? { return Failed(Invalid), s1; }
    }
  }

  /** The walk of validateRestoredFiles: every staged node must be accounted for. */
  method WalkStaged(root: Root, ids: Entries, paths: Lookup, ghost pre: Tree, ghost s: Tree,
      ghost s1: Tree) returns (r: Outcome)
    requires NamespaceOk(ids) && SameEntries(ids, paths) && Unpacking(root.tree, pre, s1) && Making(s, ids, s1)
    requires forall id :: id in ids ==> ids[id].path in s1
    ensures r.Done? ==> CouldBe(s, ids, s1)
    ensures root.reliable ==> r.Done? || r == Failed(Invalid)
    ensures r.Failed? ==> r.error == IO || (r.error == Invalid && forall x :: !CouldBe(s, ids, x))
  {
    hide TX, JOURNAL, TX_INDEX, JOURNAL_NEW, CouldBe, Making, NamespaceOk, SameEntries;
    r := Done;
    var todo := set q | q in root.tree && STAGED < q;
    forall p | p in s1 && p != [] ensures STAGED + p in todo {
      assert Mirrored(root.tree, s1, p);
    }
    while todo != {}
      invariant r.Done? && forall q :: q in todo ==> q in root.tree && STAGED < q
      invariant forall p {:trigger Accounted(paths, p, s1[p])} ::
        p in s1 && p != [] && STAGED + p !in todo ==> Accounted(paths, p, s1[p])
      decreases |todo|
    {
      var q :| q in todo;
      todo := todo - {q};
      ghost var before := todo + {q};
      var p := q[|STAGED|..];
      assert q == STAGED + p && p != [] && Mirrored(root.tree, s1, p);
      var node;
      r, node := root.Lstat(q);
      if !r.Done? { return; }
      if !Accounted(paths, p, node.value) {
        forall x ensures !CouldBe(s, ids, x) {
          if CouldBe(s, ids, x) { NodeAccounted(s, ids, paths, s1, p, x); }
        }
        return Failed(Invalid);
      }
      forall x | x in s1 && x != [] && STAGED + x !in todo ensures Accounted(paths, x, s1[x]) {
        SameSuffix(x, p);
      }
    }
    AllAccountedIsExact(s, ids, paths, s1);
  }

  // ----- The moves of Load -----

  ghost predicate AllDifferent(moves: seq<Move>) {
    forall i, j {:trigger DifferentMoves(moves[i], moves[j])} ::
      0 <= i < |moves| && 0 <= j < |moves| && i != j ==> DifferentMoves(moves[i], moves[j])
  }

  /** The entries listed so far, numbered below k, are put aside. */
  ghost predicate Evictions(t: Tree, moves: seq<Move>, todo: set<Path>, k: nat) {
    && AllDifferent(moves)
    && (forall i :: 0 <= i < |moves| ==>
          Evicting(t, moves[i]) && moves[i].from !in todo && forall j: nat :: moves[i].to == OldPath(j) ==> j < k)
    && (forall p {:trigger Evicted(moves, |moves|, p)} ::
          p in t && |p| == 1 && p != TX && p != INDEX && p !in todo ==> Evicted(moves, |moves|, p))
  }

  lemma EvictNext(t: Tree, pre: Tree, s: Tree, moves: seq<Move>, todo: set<Path>, k: nat, p: Path)
    requires Unpacking(t, pre, s) && Named(pre) && Evictions(t, moves, todo, k)
    requires p in todo && p in t && |p| == 1 && p != TX && p != INDEX
    ensures Evictions(t, moves + [Move(p, OldPath(k))], todo - {p}, k + 1)
  {
    hide TX, INDEX, STAGED, JOURNAL, TX_INDEX, JOURNAL_NEW, IsInternalPath;
    var next, m := moves + [Move(p, OldPath(k))], Move(p, OldPath(k));
    OldPathIs(k, m.to);
    OldInStaging(t, m.to);
    TransactionDirectoryIsTop();
    assert p in User(t) && NamedAt(pre, p);
    assert Evicting(t, m);
    forall j: nat | m.to == OldPath(j) ensures j < k + 1 {
      if j != k { OldPathsDiffer(j, k); }
    }
    forall i, j | 0 <= i < |next| && 0 <= j < |next| && i != j ensures DifferentMoves(next[i], next[j]) {
      if i < |moves| && j < |moves| { assert DifferentMoves(moves[i], moves[j]); }
    }
    forall x | x in t && |x| == 1 && x != TX && x != INDEX && x !in todo - {p} ensures Evicted(next, |next|, x) {
      if x == p {
        assert next[|moves|].from == p;
      } else {
        assert Evicted(moves, |moves|, x);
        var i :| 0 <= i < |moves| && moves[i].from == x;
        assert next[i] == moves[i];
      }
    }
  }

  lemma OldInStaging(t: Tree, q: Path)
    requires AtOld(q) && |q| == 2 && InStaging(t, q)
    ensures q !in t
  {
    TransactionDirectoryIsTop();
    if STAGED <= q { StagedNotOld(q); }
  }

  /** The staged entries listed so far are installed after the first n moves. */
  ghost predicate Installs(t: Tree, s: Tree, moves: seq<Move>, n: nat, todo: set<Path>) {
    && n <= |moves| && AllDifferent(moves)
    && (forall i :: 0 <= i < n ==> Evicting(t, moves[i]))
    && (forall i :: n <= i < |moves| ==> Installing(s, moves[i]) && moves[i].from !in todo)
    && (forall p {:trigger Evicted(moves, n, p)} :: p in t && |p| == 1 && p != TX && p != INDEX ==> Evicted(moves, n, p))
    && (forall p {:trigger Placed(moves, n, p)} :: p in s && |p| == 1 && STAGED + p !in todo ==> Placed(moves, n, p))
  }

  lemma InstallNext(t: Tree, s: Tree, moves: seq<Move>, n: nat, todo: set<Path>, p: Path)
    requires Installs(t, s, moves, n, todo) && STAGED + p in todo && p in s && |p| == 1 && StoredName(p[0])
    ensures Installs(t, s, moves + [Move(STAGED + p, p)], n, todo - {STAGED + p})
  {
    hide TX, INDEX, STAGED, StoredName;
    var next, m := moves + [Move(STAGED + p, p)], Move(STAGED + p, p);
    assert Installing(s, m);
    forall i | 0 <= i < |moves| ensures DifferentMoves(moves[i], m) && DifferentMoves(m, moves[i]) {
      if i < n {
        EvictionSpares(t, moves[i], []);
        InstallSpares(s, m, []);
      } else {
        assert moves[i].from != m.from;
      }
    }
    forall i, j | 0 <= i < |next| && 0 <= j < |next| && i != j ensures DifferentMoves(next[i], next[j]) {
      if i < |moves| && j < |moves| { assert DifferentMoves(moves[i], moves[j]); }
    }
    forall x | x in t && |x| == 1 && x != TX && x != INDEX ensures Evicted(next, n, x) {
      assert Evicted(moves, n, x);
      var i :| 0 <= i < n && moves[i].from == x;
      assert next[i] == moves[i];
    }
    forall x | x in s && |x| == 1 && STAGED + x !in todo - {STAGED + p} ensures Placed(next, n, x) {
      SameSuffix(x, p);
      if x == p {
        assert next[|moves|].to == p;
      } else {
        assert Placed(moves, n, x);
        var i :| n <= i < |moves| && moves[i].to == x;
        assert next[i] == moves[i];
      }
    }
  }

  /** What is there is put aside under the number it has in the listing; what is staged is installed. */
  method ListMoves(root: Root, ghost pre: Tree, ghost s: Tree) returns (r: Outcome, moves: seq<Move>, ghost n: nat)
    requires Unpacking(root.tree, pre, s) && Named(pre)
    requires forall p :: p in s && |p| == 1 ==> StoredName(p[0])
    ensures r.Done? ==> Swapping(root.tree, s, moves, n)
    ensures root.reliable ==> r.Done?
    ensures r.Failed? ==> r.error == IO
  {
    hide TX, INDEX, STAGED, JOURNAL, TX_INDEX, JOURNAL_NEW, StoredName, Evictions, Installs, Swapping;
    moves, n := [], 0;
    r := root.Sync();
    if !r.Done? { return; }
    moves := ListEvictions(root, pre, s);
    n := |moves|;
    r := root.Sync();
    if !r.Done? { return; }
    moves := ListInstalls(root, moves, s, n);
    MovesListed(root.tree, pre, s, moves, n);
  }

  lemma MovesListed(t: Tree, pre: Tree, s: Tree, moves: seq<Move>, n: nat)
    requires Unpacking(t, pre, s) && Installs(t, s, moves, n, {})
    ensures Swapping(t, s, moves, n)
  {
    hide TX, INDEX, STAGED, StoredName;
  }

  method ListEvictions(root: Root, ghost pre: Tree, ghost s: Tree) returns (moves: seq<Move>)
    requires Unpacking(root.tree, pre, s) && Named(pre)
    ensures Installs(root.tree, s, moves, |moves|, set p | p in root.tree && STAGED < p)
  {
    hide TX, INDEX, STAGED, JOURNAL, TX_INDEX, JOURNAL_NEW, OldPath, Evictions;
    moves := [];
    var k := 0;
    var todo := set p | p in root.tree && |p| == 1;
    NothingEvicted(root.tree, todo);
    while todo != {}
      invariant (forall p :: p in todo ==> p in root.tree && |p| == 1)
      invariant Evictions(root.tree, moves, todo, k)
      decreases |todo|
    {
      var p :| p in todo;
      if p == TX || p == INDEX {
        SkipNext(root.tree, moves, todo, k, p);
      } else {
        EvictNext(root.tree, pre, s, moves, todo, k, p);
        moves := moves + [Move(p, OldPath(k))];
      }
      todo := todo - {p};
      k := k + 1;
    }
    EvictionsDone(root.tree, pre, s, moves, k);
  }

  lemma NothingEvicted(t: Tree, todo: set<Path>)
    requires forall p :: p in t && |p| == 1 ==> p in todo
    ensures Evictions(t, [], todo, 0)
  {
  }

  lemma SkipNext(t: Tree, moves: seq<Move>, todo: set<Path>, k: nat, p: Path)
    requires Evictions(t, moves, todo, k) && (p == TX || p == INDEX)
    ensures Evictions(t, moves, todo - {p}, k + 1)
  {
    hide TX, INDEX, OldPath;
  }

  lemma EvictionsDone(t: Tree, pre: Tree, s: Tree, moves: seq<Move>, k: nat)
    requires Unpacking(t, pre, s) && Evictions(t, moves, {}, k)
    ensures Installs(t, s, moves, |moves|, set p | p in t && STAGED < p)
  {
    hide TX, INDEX, STAGED, JOURNAL, TX_INDEX, JOURNAL_NEW, OldPath;
    forall p | p in s && |p| == 1 ensures STAGED + p in t && STAGED < STAGED + p {
      assert Mirrored(t, s, p);
    }
  }

  method ListInstalls(root: Root, evictions: seq<Move>, ghost s: Tree, ghost n: nat) returns (moves: seq<Move>)
    requires Installs(root.tree, s, evictions, n, set p | p in root.tree && STAGED < p)
    requires forall p {:trigger Mirrored(root.tree, s, p)} :: Mirrored(root.tree, s, p)
    requires forall p :: p in s && |p| == 1 ==> StoredName(p[0])
    ensures Installs(root.tree, s, moves, n, {})
  {
    hide TX, INDEX, STAGED, StoredName, Installs;
    moves := evictions;
    var todo := set q | q in root.tree && STAGED < q;
    while todo != {}
      invariant (forall q :: q in todo ==> q in root.tree && STAGED < q)
      invariant Installs(root.tree, s, moves, n, todo)
      decreases |todo|
    {
      var q :| q in todo;
      var p := q[|STAGED|..];
      assert q == STAGED + p && Mirrored(root.tree, s, p);
      if |p| == 1 {
        InstallNext(root.tree, s, moves, n, todo, p);
        moves := moves + [Move(q, p)];
      } else {
        DeeperEntry(root.tree, s, moves, n, todo, p);
      }
      todo := todo - {q};
    }
  }

  lemma DeeperEntry(t: Tree, s: Tree, moves: seq<Move>, n: nat, todo: set<Path>, p: Path)
    requires Installs(t, s, moves, n, todo) && |p| != 1
    ensures Installs(t, s, moves, n, todo - {STAGED + p})
  {
    hide TX, INDEX, STAGED, StoredName;
    forall x | x in s && |x| == 1 && STAGED + x !in todo - {STAGED + p} ensures Placed(moves, n, x) {
      SameSuffix(x, p);
    }
  }

  // ----- An exact tree replaces the user's -----

  lemma ExactIsStored(s: Tree, ids: Entries)
    requires NamespaceOk(ids) && Exact(s, ids)
    ensures forall p :: p in s ==> StoredPath(p)
    ensures INDEX !in s && TX !in s
  {
    hide TX, INDEX, StoredPath;
    assert StoredPath([]) by { RootIsStored(); }
    forall p | p in s && p != [] ensures StoredPath(p) && p != INDEX && p != TX {
      assert Indexes(ids, p);
      var id :| id in ids && ids[id].path == p;
      assert WellFormed(ids, id);
      UserPath(p);
    }
    ControlTops();
  }

  lemma RootIsStored()
    ensures StoredPath([])
  {
  }

  lemma ControlTops()
    ensures INDEX != [] && TX != []
  {
  }

  lemma StoredTop(p: Path)
    requires StoredPath(p) && |p| == 1
    ensures StoredName(p[0])
  {
  }

  lemma ReplaceSound(pre: Tree, s: Tree, ids: Entries)
    requires NamespaceOk(ids) && Exact(s, ids) && (INDEX in pre ==> pre[INDEX].File?)
    ensures Sound(Changed(pre, Replace(s)), ids)
  {
    hide TX, INDEX, StoredPath;
    ExactIsStored(s, ids);
    var r := Changed(pre, Replace(s));
    ControlPaths();
    forall q ensures NamedAt(s, q) {
      if q in s && q != [] { UserPath(q); }
    }
    if INDEX in pre {
      AddedClosed(s, INDEX, pre[INDEX]);
      NamedWith(s, INDEX, pre[INDEX]);
    }
    forall id | id in ids ensures Matches(r, ids[id]) {
      assert Matches(s, ids[id]);
    }
  }

}
