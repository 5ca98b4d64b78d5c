/** Tree of the LocalStorage driver: the entries below the root are grouped by parent in one pass over the
    path map, and the groups are assembled recursively. */
module LocalTrees {
  import opened Paths
  import opened Disk
  import opened Namespace
  import opened RootDirectory
  import opened EntryMaps
  import opened IndexFiles
  import opened LocalStorages
  import opened TreeShapes

  datatype TreeResult = Tree(root: TreeNode) | NoTree(error: Error)

  /** The entries that the pass keeps: stored paths that extend the root's path and a slash. */
  predicate Shown(root: Meta, m: Meta) {
    KeyOf(m) != KeyOf(root) && root.path <= m.path && (m.path != root.path || m.isDir)
  }

  /** getParentPath, on components. */
  function ParentPath(p: Path): Path {
    if p == [] then [] else Parent(p)
  }

  predicate Grouping(paths: Lookup, root: Meta, done: set<Key>, m: Meta, p: Path) {
    KeyOf(m) in done && KeyOf(m) in paths && paths[KeyOf(m)] == m && Shown(root, m) && ParentPath(m.path) == p
  }

  predicate InGroup(groups: map<Path, seq<Meta>>, p: Path, m: Meta) {
    p in groups && m in groups[p]
  }

  ghost predicate GroupAt(paths: Lookup, root: Meta, groups: map<Path, seq<Meta>>, done: set<Key>, p: Path) {
    && (forall m {:trigger InGroup(groups, p, m)} :: InGroup(groups, p, m) <==> Grouping(paths, root, done, m, p))
    && (p in groups ==> forall i, j :: 0 <= i < j < |groups[p]| ==> groups[p][i] != groups[p][j])
  }

  ghost predicate Grouped(paths: Lookup, root: Meta, groups: map<Path, seq<Meta>>, done: set<Key>) {
    forall p {:trigger GroupAt(paths, root, groups, done, p)} :: GroupAt(paths, root, groups, done, p)
  }

  method GroupChildren(ids: Entries, paths: Lookup, root: Meta) returns (groups: map<Path, seq<Meta>>)
    requires SameEntries(ids, paths)
    ensures Grouped(paths, root, groups, paths.Keys)
  {
    hide ParentPath, Shown;
    groups := map[];
    var todo := paths.Keys;
    while todo != {}
      invariant todo <= paths.Keys
      invariant Grouped(paths, root, groups, paths.Keys - todo)
      decreases |todo|
    {
      var k :| k in todo;
      var m := paths[k];
      ghost var was, done := groups, paths.Keys - todo;
      assert Backed(ids, paths, k);
      if Shown(root, m) {
        var parent := ParentPath(m.path);
        groups := groups[parent := (if parent in groups then groups[parent] else []) + [m]];
      }
      todo := todo - {k};
      GroupedOne(paths, root, was, groups, done, k);
      assert done + {k} == paths.Keys - todo;
    }
    assert paths.Keys - {} == paths.Keys;
  }

  lemma GroupedOne(paths: Lookup, root: Meta, was: map<Path, seq<Meta>>, groups: map<Path, seq<Meta>>,
      done: set<Key>, k: Key)
    requires Grouped(paths, root, was, done) && k in paths && k !in done && KeyOf(paths[k]) == k
    requires
      var m := paths[k];
      groups == if Shown(root, m) then was[ParentPath(m.path) := (if ParentPath(m.path) in was then was[ParentPath(m.path)] else []) + [m]] else was
    ensures Grouped(paths, root, groups, done + {k})
  {
    hide ParentPath, Shown;
    var m := paths[k];
    forall p {:trigger GroupAt(paths, root, groups, done + {k}, p)} ensures GroupAt(paths, root, groups, done + {k}, p) {
      assert GroupAt(paths, root, was, done, p);
      assert !InGroup(was, p, m);
      forall x {:trigger InGroup(groups, p, x)} ensures InGroup(groups, p, x) <==> Grouping(paths, root, done + {k}, x, p) {
        assert InGroup(was, p, x) <==> Grouping(paths, root, done, x, p);
      }
    }
  }

  /** In a namespace the groups are the children of every directory from the root down. */
  lemma GroupsAreChildren(ids: Entries, paths: Lookup, root: Meta, groups: map<Path, seq<Meta>>, p: Path, m: Meta)
    requires NamespaceOk(ids) && SameEntries(ids, paths) && Grouped(paths, root, groups, paths.Keys)
    requires root.path <= p && (root.path == [] || (root.id in ids && ids[root.id] == root))
    ensures InGroup(groups, p, m) <==> m.id in ids && ids[m.id] == m && InDirectory(m, p)
  {
    assert GroupAt(paths, root, groups, paths.Keys, p);
    assert InGroup(groups, p, m) <==> Grouping(paths, root, paths.Keys, m, p);
    if KeyOf(m) in paths { assert Backed(ids, paths, KeyOf(m)); }
    if m.id in ids { assert Listed(ids, paths, m.id) && WellFormed(ids, m.id); }
    if m.id in ids && root.id in ids { assert Unique(ids, m.id, root.id); }
    if KeyOf(m) in paths && paths[KeyOf(m)] == m && Shown(root, m) && ParentPath(m.path) == p {
      assert WellFormed(ids, m.id);
    }
  }

  /** A file has nothing below it. */
  lemma FileHasNoTree(ids: Entries, m: Meta)
    requires NamespaceOk(ids) && m.id in ids && ids[m.id] == m && !m.isDir
    ensures TreeOf(ids, TreeNode(RowOf(m), []), m.path)
  {
    hide RowOf;
    forall id | id in ids ensures !InDirectory(ids[id], m.path) {
      if m.path < ids[id].path { BelowDirectory(ids, m.id, id); }
    }
  }

  /** The entries strictly below a path. */
  ghost function Below(ids: Entries, p: Path): set<Id> {
    set id | id in ids && p < ids[id].path
  }

  lemma BelowShrinks(ids: Entries, m: Meta, p: Path)
    requires m.id in ids && ids[m.id] == m && p < m.path
    ensures Below(ids, m.path) < Below(ids, p)
  {
    assert m.id in Below(ids, p) && m.id !in Below(ids, m.path);
  }

  /** The first n children have been appended. */
  ghost predicate Appended(ids: Entries, group: seq<Meta>, n: nat, children: seq<TreeNode>, p: Path) {
    && n <= |group| && |children| == n
    && (forall i :: 0 <= i < n ==>
          && group[i].id in ids && children[i].meta == RowOf(group[i])
          && TreeOf(ids, children[i], group[i].path))
  }

  /** It returns, and what it returns is the tree of the namespace below the path. */
  method BuildTree(meta: Meta, groups: map<Path, seq<Meta>>, ghost ids: Entries, ghost paths: Lookup, ghost top: Meta)
    returns (node: TreeNode)
    requires NamespaceOk(ids) && SameEntries(ids, paths) && Grouped(paths, top, groups, paths.Keys)
    requires top.path == [] || (top.id in ids && ids[top.id] == top)
    requires top.path <= meta.path
    ensures node.meta == RowOf(meta) && TreeOf(ids, node, meta.path)
    decreases Below(ids, meta.path)
  {
    hide RowOf, NamespaceOk, SameEntries, Grouped, Parent, TreeOf, Below;
    var p := meta.path;
    var group := if p in groups then groups[p] else [];
    var children: seq<TreeNode> := [];
    for n := 0 to |group|
      invariant Appended(ids, group, n, children, p)
    {
      var m := group[n];
      assert InGroup(groups, p, m);
      GroupsAreChildren(ids, paths, top, groups, p, m);
      InDirectoryIsBelow(m, p);
      BelowShrinks(ids, m, p);
      var child: TreeNode;
      if m.isDir {
        child := BuildTree(m, groups, ids, paths, top);
      } else {
        child := TreeNode(RowOf(m), []);
        FileHasNoTree(ids, m);
      }
      children := children + [child];
    }
    node := TreeNode(RowOf(meta), children);
    Assembled(ids, paths, top, groups, meta, group, node);
  }

  lemma InDirectoryIsBelow(m: Meta, p: Path)
    requires InDirectory(m, p)
    ensures p < m.path
  {
  }

  lemma Assembled(ids: Entries, paths: Lookup, top: Meta, groups: map<Path, seq<Meta>>, meta: Meta,
      group: seq<Meta>, node: TreeNode)
    requires NamespaceOk(ids) && SameEntries(ids, paths) && Grouped(paths, top, groups, paths.Keys)
    requires top.path == [] || (top.id in ids && ids[top.id] == top)
    requires top.path <= meta.path && group == if meta.path in groups then groups[meta.path] else []
    requires Appended(ids, group, |group|, node.children, meta.path)
    ensures TreeOf(ids, node, meta.path)
  {
    hide NamespaceOk, SameEntries, Grouped, Parent, InDirectory, Stored;
    var p := meta.path;
    forall m: Meta ensures InGroup(groups, p, m) <==> m.id in ids && ids[m.id] == m && InDirectory(m, p) {
      GroupsAreChildren(ids, paths, top, groups, p, m);
    }
    forall i | 0 <= i < |group| ensures group[i].id in ids && ids[group[i].id] == group[i] && InDirectory(group[i], p) {
      assert InGroup(groups, p, group[i]);
    }
    assert GroupAt(paths, top, groups, paths.Keys, p) by { GroupIs(paths, top, groups, p); }
    forall id | id in ids && InDirectory(ids[id], p) ensures HasChild(node.children, id) {
      EntryIsListed(ids, id);
      assert InGroup(groups, p, ids[id]);
      var i :| 0 <= i < |group| && group[i] == ids[id];
      assert node.children[i].meta.id == id;
    }
  }

  lemma GroupIs(paths: Lookup, top: Meta, groups: map<Path, seq<Meta>>, p: Path)
    requires Grouped(paths, top, groups, paths.Keys)
    ensures GroupAt(paths, top, groups, paths.Keys, p)
  {
  }

  lemma EntryIsListed(ids: Entries, id: Id)
    requires NamespaceOk(ids) && id in ids
    ensures ids[id].id == id
  {
    assert WellFormed(ids, id);
  }

  /** The root that is made up when no entry is stored for it. */
  const VIRTUAL: Meta := Meta(NIL, [], true, "/", 0, 0, "")

  /** What Tree answers for a path. */
  ghost predicate TreeAnswers(ids: Entries, paths: Lookup, value: string, r: TreeResult) {
    Answers(ids, paths, StoragePath(value), r)
  }

  ghost predicate Answers(ids: Entries, paths: Lookup, path: Option<Path>, r: TreeResult) {
    match path
    case None => r == NoTree(InvalidPath)
    case Some(p) =>
      match Find(paths, p)
      case Some(m) => r.Tree? && r.root.meta == RowOf(m) && TreeOf(ids, r.root, p)
      case None =>
        if p == [] then r.Tree? && r.root.meta == RowOf(VIRTUAL) && TreeOf(ids, r.root, p) else r == NoTree(NotFound)
  }

  /** No entry is stored for the root, so its row is made up: a directory called "/", of size 0. */
  lemma RootIsMadeUp(ids: Entries, paths: Lookup)
    requires NamespaceOk(ids) && SameEntries(ids, paths)
    ensures Find(paths, []).None? && RowOf(VIRTUAL) == Row(NIL, "/", true, "/", 0, 0, "")
  {
    hide SameEntries;
    assert Stored([], true) == "/";
    FindExact(ids, paths, []);
    forall id | id in ids ensures ids[id].path != [] { assert WellFormed(ids, id); }
  }

  method Tree(ls: LocalStorage, value: string) returns (r: TreeResult)
    requires ls.Valid()
    ensures ls.failed.Some? ==> r == NoTree(ls.failed.value)
    ensures ls.failed.None? ==> TreeAnswers(ls.ids, ls.paths, value, r)
    ensures r.Tree? ==> StoragePath(value).Some?
    ensures r.Tree? && StoragePath(value).value == [] ==> r.root.meta == Row(NIL, "/", true, "/", 0, 0, "")
    ensures r.Tree? && StoragePath(value).value != [] ==>
      exists id :: id in ls.ids && ls.ids[id].path == StoragePath(value).value && r.root.meta == RowOf(ls.ids[id])
  {
    hide StoragePath, RowOf, NamespaceOk, SameEntries, TreeOf;
    if ls.failed.Some? { return NoTree(ls.failed.value); }
    match StoragePath(value)
    case None =>
      r := NoTree(InvalidPath);
    case Some(p) =>
      var found := Find(ls.paths, p);
      if found.None? && p != [] {
        r := NoTree(NotFound);
      } else {
        var top := if found.Some? then found.value else VIRTUAL;
        FindExact(ls.ids, ls.paths, p);
        RootIsMadeUp(ls.ids, ls.paths);
        var groups := GroupChildren(ls.ids, ls.paths, top);
        var node := BuildTree(top, groups, ls.ids, ls.paths, top);
        r := TreeResult.Tree(node);
      }
  }
}
