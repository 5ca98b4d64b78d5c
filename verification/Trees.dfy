/** Tree in both drivers: one pass in key order in Badger, a recursion over grouped children in LocalStorage.
    Both give every entry below the root exactly once, under its parent. */
module Trees {
  import opened Paths
  import opened Disk
  import opened Namespace
  import opened Restoring
  import opened EntryMaps
  import opened IndexFiles
  import opened KeyOrder
  import opened BadgerState
  import opened BadgerTransactions
  import opened BadgerDriver
  import opened Refinement
  import opened TreeShapes
  import opened LocalTrees

  // ----- Keys -----

  /** What a Badger iterator over a prefix yields: the keys under it, in order. */
  ghost predicate Yields(files: Files, prefix: string, keys: seq<string>) {
    && (forall i, j :: 0 <= i < j < |keys| ==> Before(keys[i], keys[j]))
    && (forall k :: k in keys <==> k in files && prefix <= k)
  }

  // ----- Badger -----

  /** Where the pass hangs a key: under its parent if that has a node, and otherwise under the root. */
  function Host(nodes: set<string>, target: string, k: string): string {
    if ParentString(k) in nodes then ParentString(k) else target
  }

  lemma {:induction false} UpToSlashShorter(s: string)
    requires s != "" && s[0] == '/'
    ensures UpToSlash(s) <= s
  {
    if s[|s| - 1] != '/' {
      UpToSlashShorter(s[..|s| - 1]);
    }
  }

  lemma ParentIsPrefix(k: string)
    requires k != "" && k[0] == '/' && k != "/"
    ensures ParentString(k) < k
  {
    var s := TrimSlash(k);
    assert s != "" && s[0] == '/';
    UpToSlashShorter(s);
    if s == k {
      UpToSlashShorter(k);
      assert UpToSlash(k) != k || k[|k| - 1] == '/' by { EndsAtSlash(k); }
    }
  }

  /** The nodes after n keys. */
  function Known(keys: seq<string>, n: nat, target: string): set<string>
    requires n <= |keys|
  {
    (set k | k in keys[..n]) + {target}
  }

  /** The list of a node holds the keys that belong under it. */
  ghost predicate ListOk(links: map<string, seq<string>>, target: string, keys: seq<string>, n: nat, h: string)
    requires n <= |keys|
  {
    h in links ==>
      && (forall c :: c in links[h] <==> c in keys[..n] && c != target && Host(Known(keys, n, target), target, c) == h)
      && (forall i, j :: 0 <= i < j < |links[h]| ==> links[h][i] != links[h][j])
  }

  /** Every key but the root has been hung once, under its parent. */
  ghost predicate Hung(links: map<string, seq<string>>, target: string, keys: seq<string>, n: nat)
    requires n <= |keys|
  {
    links.Keys == Known(keys, n, target) && forall h {:trigger ListOk(links, target, keys, n, h)} :: ListOk(links, target, keys, n, h)
  }

  /** Keys under an absolute target, in order. */
  ghost predicate InOrder(keys: seq<string>, target: string) {
    && (forall i, j :: 0 <= i < j < |keys| ==> Before(keys[i], keys[j]))
    && (forall k :: k in keys ==> target <= k)
    && target != "" && target[0] == '/'
  }

  /** A key that comes later is nobody's parent. */
  lemma ParentNotLater(keys: seq<string>, target: string, n: nat, c: string)
    requires InOrder(keys, target) && n < |keys| && c in keys[..n + 1] && keys[n] != target
    ensures ParentString(c) != keys[n]
  {
    hide ParentString, Before;
    var j :| 0 <= j <= n && keys[j] == c;
    assert keys[j] in keys;
    if c == "/" {
      ParentOfRoot();
    } else {
      ParentIsPrefix(c);
      PrefixComesFirst(ParentString(c), c);
      BeforeIsStrict(c, keys[n]);
    }
  }

  lemma ParentOfRoot()
    ensures ParentString("/") == "/"
  {
  }

  lemma HostStays(keys: seq<string>, target: string, n: nat, c: string)
    requires InOrder(keys, target) && n < |keys| && c in keys[..n + 1] && keys[n] != target
    ensures Host(Known(keys, n + 1, target), target, c) == Host(Known(keys, n, target), target, c) != keys[n]
  {
    hide ParentString, Before;
    ParentNotLater(keys, target, n, c);
    assert keys[..n + 1] == keys[..n] + [keys[n]];
  }

  lemma KeyIsNew(keys: seq<string>, target: string, n: nat)
    requires InOrder(keys, target) && n < |keys|
    ensures keys[n] !in keys[..n]
  {
    hide Before;
    forall j | 0 <= j < n ensures keys[j] != keys[n] {
      BeforeIsStrict(keys[j], keys[n]);
    }
  }

  /** Hanging the next key. */
  lemma KeyHung(links: map<string, seq<string>>, target: string, keys: seq<string>, n: nat)
    requires InOrder(keys, target) && n < |keys| && keys[n] != target && Hung(links, target, keys, n)
    ensures
      var k := keys[n];
      var h := Host(links.Keys, target, k);
      h in links && Hung(links[h := links[h] + [k]][k := []], target, keys, n + 1)
  {
    hide ParentString, Before;
    var k := keys[n];
    var h := Host(links.Keys, target, k);
    var next := links[h := links[h] + [k]][k := []];
    assert keys[..n + 1] == keys[..n] + [k];
    KeyIsNew(keys, target, n);
    assert Known(keys, n + 1, target) == Known(keys, n, target) + {k};
    assert k !in links;
    forall x {:trigger ListOk(next, target, keys, n + 1, x)} ensures ListOk(next, target, keys, n + 1, x) {
      assert ListOk(links, target, keys, n, x);
      if x in next {
        forall c ensures c in next[x] <==> c in keys[..n + 1] && c != target && Host(Known(keys, n + 1, target), target, c) == x {
          if c in keys[..n + 1] { HostStays(keys, target, n, c); }
        }
      }
    }
  }

  /** The root is the first key under it. */
  lemma TargetFirst(files: Files, target: string, keys: seq<string>, n: nat)
    requires Yields(files, target, keys) && n < |keys|
    ensures keys[n] == target ==> n == 0
    ensures n == 0 && target in files ==> keys[n] == target
  {
    hide Before;
    assert keys[0] in keys;
    if keys[n] == target && n > 0 {
      KeyAfter(target, keys[0]);
    }
    if n == 0 && target in files {
      var j :| 0 <= j < |keys| && keys[j] == target;
      KeyAfter(target, keys[0]);
    }
  }

  lemma KeyAfter(target: string, k: string)
    requires target <= k
    ensures !Before(k, target)
  {
    hide Before;
    if target != k { PrefixComesFirst(target, k); }
    BeforeIsStrict(k, target);
  }

  /** The root of the tree that a caller names. */
  function TreeTarget(value: string): (target: string)
    ensures target != "" && target[0] == '/' && target[|target| - 1] == '/'
  {
    var v := TrimSpace(value);
    var absolute := if v == "" || v[0] != '/' then "/" + v else v;
    if absolute[|absolute| - 1] != '/' then absolute + "/" else absolute
  }

  /** The pass over the keys under the target. Because a directory's key comes first, the nodes known when a
      key is reached already decide its parent: every key but the root is hung exactly once, where the
      complete set of nodes says. */
  method BadgerTree(files: Files, value: string, keys: seq<string>) returns (found: bool,
      links: map<string, seq<string>>)
    requires Yields(files, TreeTarget(value), keys)
    ensures found <==> TreeTarget(value) == "/" || TreeTarget(value) in files
    ensures found ==> Hung(links, TreeTarget(value), keys, |keys|)
  {
    hide ParentString, Before, TreeTarget;
    var target := TreeTarget(value);
    links := map[];
    found := target == "/";
    if found { links := map[target := []]; }
    for n := 0 to |keys|
      invariant found <==> target == "/" || (n > 0 && target in files)
      invariant found ==> Hung(links, target, keys, n)
    {
      var k := keys[n];
      assert keys[..n + 1] == keys[..n] + [k];
      TargetFirst(files, target, keys, n);
      if k == target {
        links := map[k := []];
        found := true;
      } else {
        if found { KeyHung(links, target, keys, n); }
        var parent := ParentString(k);
        if parent in links {
          links := links[parent := links[parent] + [k]];
        } else if found {
          links := links[target := links[target] + [k]];
        }
        links := links[k := []];
      }
    }
    assert target in files ==> target in keys;
  }

  /** In the spelling of a namespace the parent of a key is the directory its entry lies in, and that has a
      node: the pass never falls back on the root for anything but the root's own children. */
  lemma HostIsParent(t: Db, ids: Entries, root: Path, keys: seq<string>, id: Id)
    requires NamespaceOk(ids) && Spelt(t, ids) && id in ids && StoredPath(root) && root < ids[id].path
    requires Yields(t.files, Stored(root, true), keys)
    ensures KeyString(ids[id]) in keys && KeyString(ids[id]) != Stored(root, true)
    ensures Host(Known(keys, |keys|, Stored(root, true)), Stored(root, true), KeyString(ids[id])) == Stored(Parent(ids[id].path), true)
  {
    hide Stored, Before, UpToSlash, TrimSlash;
    var m := ids[id];
    NamespaceSensible(ids);
    assert SpeltAt(t, ids, id) && ParentIndexed(ids, id);
    BelowRoot(root, m.path, m.isDir);
    ParentOfStored(m.path, m.isDir);
    assert keys[..|keys|] == keys;
    if Parent(m.path) != root {
      var d :| d in ids && ids[d].path == Parent(m.path) && ids[d].isDir;
      assert SpeltAt(t, ids, d);
      BelowRoot(root, ids[d].path, true);
    }
  }

  lemma BelowRoot(root: Path, p: Path, isDir: bool)
    requires StoredPath(root) && StoredPath(p) && root < p
    ensures Stored(root, true) <= Stored(p, isDir) && Stored(root, true) != Stored(p, isDir)
  {
    hide Render, Stored;
    StoredIsClean(root);
    StoredIsClean(p);
    if root != [] {
      StoredPrefix(root, p, isDir);
      var a, b := Meta(0, root, true, "", 0, 0, ""), Meta(0, p, isDir, "", 0, 0, "");
      KeyStringInjective(a, b);
    } else {
      StoredOfRoot();
      StoredText(p, isDir);
      RenderHead(p);
      NoSlashAtEnd(p);
    }
  }


  // ----- The tree that the pass leaves -----

  /** The root that is made up when no key is stored for it. */
  const VIRTUAL_ROW: Row := Row(NIL, "/", true, BaseName(""), 0, 0, "")

  function RowAt(files: Files, k: string): Row {
    if k in files then files[k].meta else VIRTUAL_ROW
  }

  /** Children have nodes, and longer keys. */
  ghost predicate Descending(links: map<string, seq<string>>) {
    forall h, i {:trigger links[h][i]} :: h in links && 0 <= i < |links[h]| ==> links[h][i] in links && h < links[h][i]
  }

  ghost function Beyond(links: map<string, seq<string>>, k: string): set<string> {
    set x | x in links && k < x
  }

  lemma BeyondShrinks(links: map<string, seq<string>>, k: string, i: nat)
    requires Descending(links) && k in links && i < |links[k]|
    ensures links[k][i] in links && Beyond(links, links[k][i]) < Beyond(links, k)
  {
    var c := links[k][i];
    assert c in Beyond(links, k) && c !in Beyond(links, c);
  }

  /** Following the links from a node. */
  ghost function Unfold(files: Files, links: map<string, seq<string>>, k: string): TreeNode
    requires Descending(links) && k in links
    decreases Beyond(links, k)
  {
    TreeNode(RowAt(files, k), seq(|links[k]|, i requires 0 <= i < |links[k]| =>
      (BeyondShrinks(links, k, i); Unfold(files, links, links[k][i]))))
  }

  lemma UnfoldUnfolds(files: Files, links: map<string, seq<string>>, k: string)
    requires Descending(links) && k in links
    ensures
      var node := Unfold(files, links, k);
      node.meta == RowAt(files, k) && |node.children| == |links[k]| &&
      forall i :: 0 <= i < |links[k]| ==> links[k][i] in links && node.children[i] == Unfold(files, links, links[k][i])
  {
  }

  lemma LinksDescend(files: Files, target: string, keys: seq<string>, links: map<string, seq<string>>)
    requires Yields(files, target, keys) && target != "" && target[0] == '/' && Hung(links, target, keys, |keys|)
    ensures Descending(links)
  {
    hide ParentString, Before;
    assert keys[..|keys|] == keys;
    forall h, i {:trigger links[h][i]} | h in links && 0 <= i < |links[h]|
      ensures links[h][i] in links && h < links[h][i]
    {
      var c := links[h][i];
      assert ListOk(links, target, keys, |keys|, h);
      assert c in links[h] && c in keys;
      if c == "/" { ParentOfRoot(); } else { ParentIsPrefix(c); }
    }
  }

  /** A pass over the spelling of a namespace. */
  ghost predicate Passed(t: Db, ids: Entries, root: Path, keys: seq<string>, links: map<string, seq<string>>) {
    && NamespaceOk(ids) && Spelt(t, ids) && StoredPath(root)
    && Yields(t.files, Stored(root, true), keys) && Hung(links, Stored(root, true), keys, |keys|)
  }

  /** The entry of a key below the root. */
  lemma EntryOfKey(t: Db, ids: Entries, root: Path, keys: seq<string>, links: map<string, seq<string>>,
      c: string) returns (id: Id)
    requires Passed(t, ids, root, keys, links) && c in keys && c != Stored(root, true)
    ensures id in ids && root < ids[id].path && c == KeyString(ids[id]) && c in t.files && t.files[c].meta == RowOf(ids[id])
  {
    hide Stored, Before, Hung, RowOf;
    NamespaceSensible(ids);
    assert KeySpelt(t, ids, c);
    id :| id in ids && KeyString(ids[id]) == c;
    assert SpeltAt(t, ids, id);
    OnlyBelowRoot(root, ids[id].path, ids[id].isDir);
  }

  lemma OnlyBelowRoot(root: Path, p: Path, isDir: bool)
    requires StoredPath(root) && StoredPath(p) && p != []
    requires Stored(root, true) <= Stored(p, isDir) && Stored(root, true) != Stored(p, isDir)
    ensures root < p
  {
    hide Render, Stored;
    if root != [] {
      StoredIsClean(root);
      StoredIsClean(p);
      StoredPrefix(root, p, isDir);
      assert root <= p && (root == p ==> Stored(p, isDir) == Stored(root, true));
    }
  }

  /** A node stands for the path p: it is the root, or the key of an entry below it. */
  ghost predicate NodeFor(ids: Entries, root: Path, k: string, p: Path) {
    || (p == root && k == Stored(root, true))
    || (exists id :: id in ids && root < ids[id].path && ids[id].path == p && k == KeyString(ids[id]))
  }

  /** An entry that lies in p hangs under the node for p, and nothing else does. */
  lemma HangsUnder(t: Db, ids: Entries, root: Path, keys: seq<string>, links: map<string, seq<string>>, k: string,
      p: Path, id: Id)
    requires Passed(t, ids, root, keys, links) && NodeFor(ids, root, k, p) && k in links && id in ids && root < ids[id].path
    ensures KeyString(ids[id]) in links[k] <==> InDirectory(ids[id], p)
  {
    hide Stored, Before, RowOf, NamespaceOk;
    var up := Parent(ids[id].path);
    NamespaceSensible(ids);
    HostIsParent(t, ids, root, keys, id);
    assert ListOk(links, Stored(root, true), keys, |keys|, k);
    assert keys[..|keys|] == keys;
    NodeOfDirectory(ids, root, k, p, id);
  }

  /** Among the nodes, the key of an entry's parent directory is the node for its path. */
  lemma NodeOfDirectory(ids: Entries, root: Path, k: string, p: Path, id: Id)
    requires NamespaceOk(ids) && StoredPath(root) && NodeFor(ids, root, k, p) && id in ids && root < ids[id].path
    ensures k == Stored(Parent(ids[id].path), true) <==> Parent(ids[id].path) == p
  {
    hide Stored;
    NamespaceSensible(ids);
    var up := Parent(ids[id].path);
    if p == root && k == Stored(root, true) {
      if root < up { BelowRoot(root, up, true); }
    } else {
      var e :| e in ids && root < ids[e].path && ids[e].path == p && k == KeyString(ids[e]);
      if up == p { BelowDirectory(ids, e, id); }
      if up == [] || up == root {
        BelowRoot(root, p, ids[e].isDir);
      } else {
        StoredPrefixOf(ids[id].path, up);
        KeyStringInjective(ids[e], Meta(NIL, up, true, "", 0, 0, ""));
      }
    }
  }

  lemma StoredPrefixOf(p: Path, q: Path)
    requires StoredPath(p) && q <= p
    ensures StoredPath(q)
  {
    forall i | 0 <= i < |q| ensures StoredName(q[i]) { assert q[i] == p[i]; }
  }

  /** Badger's tree is the tree of the namespace below its root. */
  lemma {:induction false} PassIsTree(t: Db, ids: Entries, root: Path, keys: seq<string>,
      links: map<string, seq<string>>, k: string, p: Path)
    requires Passed(t, ids, root, keys, links) && Descending(links) && k in links && NodeFor(ids, root, k, p)
    ensures TreeOf(ids, Unfold(t.files, links, k), p)
    decreases Beyond(links, k)
  {
    hide Stored, Before, RowOf, NamespaceOk, Hung, Yields, Beyond, Spelt, Passed, InDirectory;
    var node := Unfold(t.files, links, k);
    UnfoldUnfolds(t.files, links, k);
    forall i | 0 <= i < |node.children|
      ensures ChildRow(ids, node.children[i].meta, p) && node.children[i].meta == RowAt(t.files, links[k][i])
      ensures TreeOf(ids, node.children[i], ids[node.children[i].meta.id].path)
    {
      var c := links[k][i];
      BeyondShrinks(links, k, i);
      UnfoldUnfolds(t.files, links, c);
      var id := LinkedEntry(t, ids, root, keys, links, k, p, i);
      PassIsTree(t, ids, root, keys, links, c, ids[id].path);
    }
    forall id | id in ids && InDirectory(ids[id], p) ensures HasChild(node.children, id) {
      var i := EntryLinked(t, ids, root, keys, links, k, p, id);
      assert node.children[i].meta == RowAt(t.files, links[k][i]);
    }
    forall i, j | 0 <= i < j < |node.children| ensures node.children[i].meta.id != node.children[j].meta.id {
      LinksDiffer(t, ids, root, keys, links, k, p, i, j);
    }
  }

  lemma LinkedEntry(t: Db, ids: Entries, root: Path, keys: seq<string>, links: map<string, seq<string>>, k: string,
      p: Path, i: nat) returns (id: Id)
    requires Passed(t, ids, root, keys, links) && k in links && NodeFor(ids, root, k, p) && i < |links[k]|
    ensures id in ids && root < ids[id].path && ids[id].id == id && links[k][i] == KeyString(ids[id]) && InDirectory(ids[id], p)
    ensures RowAt(t.files, links[k][i]) == RowOf(ids[id]) && RowOf(ids[id]).id == id && NodeFor(ids, root, links[k][i], ids[id].path)
  {
    hide Stored, Before, InDirectory;
    assert ListOk(links, Stored(root, true), keys, |keys|, k);
    assert links[k][i] in links[k];
    assert keys[..|keys|] == keys;
    id := EntryOfKey(t, ids, root, keys, links, links[k][i]);
    HangsUnder(t, ids, root, keys, links, k, p, id);
    NamespaceSensible(ids);
  }

  lemma EntryLinked(t: Db, ids: Entries, root: Path, keys: seq<string>, links: map<string, seq<string>>, k: string,
      p: Path, id: Id) returns (i: nat)
    requires Passed(t, ids, root, keys, links) && k in links && NodeFor(ids, root, k, p) && id in ids && InDirectory(ids[id], p)
    ensures i < |links[k]| && RowAt(t.files, links[k][i]).id == id
  {
    hide Stored, Before;
    NamespaceSensible(ids);
    assert root < ids[id].path;
    HangsUnder(t, ids, root, keys, links, k, p, id);
    i :| i < |links[k]| && links[k][i] == KeyString(ids[id]);
    assert SpeltAt(t, ids, id);
  }

  lemma LinksDiffer(t: Db, ids: Entries, root: Path, keys: seq<string>, links: map<string, seq<string>>, k: string,
      p: Path, i: nat, j: nat)
    requires Passed(t, ids, root, keys, links) && k in links && NodeFor(ids, root, k, p) && i < j < |links[k]|
    ensures RowAt(t.files, links[k][i]).id != RowAt(t.files, links[k][j]).id
  {
    hide Stored, Before;
    assert ListOk(links, Stored(root, true), keys, |keys|, k);
    var a := LinkedEntry(t, ids, root, keys, links, k, p, i);
    var b := LinkedEntry(t, ids, root, keys, links, k, p, j);
  }

  // ----- Both drivers -----

  /** A directory's stored path names it to both drivers. */
  lemma StoredPathNames(root: Path)
    requires StoredPath(root)
    ensures TreeTarget(Stored(root, true)) == Stored(root, true) && StoragePath(Stored(root, true)) == Some(root)
  {
    hide Render, Stored, TrimSpace, StoragePath;
    StoredHead(root);
    StoredEnd(root);
    TrimStays(Stored(root, true));
    if root == [] { RootStable(); } else { DirectoryStable(root); }
  }

  lemma RootStable()
    ensures StoragePath(Stored([], true)) == Some([])
  {
    hide TrimSpace;
    StoredOfRoot();
    TrimStays("/");
    assert Split("/") == ["", ""];
  }

  lemma StoredEnd(root: Path)
    ensures Stored(root, true) != "" && Stored(root, true)[|Stored(root, true)| - 1] == '/'
  {
    hide Render;
    if root != [] { StoredText(root, true); } else { StoredOfRoot(); }
  }

  /** On the spelling of a namespace both drivers answer a directory's path with the same tree, up to the order
      of siblings: every entry below it exactly once, under its parent. */
  lemma DriversAgree(t: Db, ids: Entries, paths: Lookup, value: string, root: Path, keys: seq<string>,
                     links: map<string, seq<string>>, r: TreeResult)
    requires StoragePath(value) == Some(root) && TreeTarget(value) == Stored(root, true)
    requires Passed(t, ids, root, keys, links) && SameEntries(ids, paths) && TreeAnswers(ids, paths, value, r)
    requires HasDirectory(ids, root)
    ensures r.Tree? && Descending(links) && Stored(root, true) in links
    ensures SameBelow(Unfold(t.files, links, Stored(root, true)), r.root)
    ensures root != [] ==> Unfold(t.files, links, Stored(root, true)).meta == r.root.meta
    ensures root == [] ==> Unfold(t.files, links, Stored(root, true)).meta == r.root.meta.(name := ".")
    ensures forall id :: TallyAll(r.root.children, id) == if id in ids && root < ids[id].path then 1 else 0
  {
    hide Stored, Before, StoragePath, TreeTarget, RowOf, TreeOf, Unfold, NamespaceOk, Hung, Yields, Spelt;
    PassReaches(t, ids, root, keys, links);
    UnfoldUnfolds(t.files, links, Stored(root, true));
    RootsAgree(t, ids, paths, value, root, r);
    PassIsTree(t, ids, root, keys, links, Stored(root, true), root);
    FindExact(ids, paths, root);
    OneTree(ids, Unfold(t.files, links, Stored(root, true)), r.root, root);
    forall id ensures TallyAll(r.root.children, id) == if id in ids && root < ids[id].path then 1 else 0 {
      ExactlyOnce(ids, r.root, root, id);
    }
  }

  /** Both give a directory its own row. The root, which is nowhere stored, is made up: a directory of size 0 in
      both, but with different names. */
  lemma RootsAgree(t: Db, ids: Entries, paths: Lookup, value: string, root: Path, r: TreeResult)
    requires StoragePath(value) == Some(root) && StoredPath(root) && HasDirectory(ids, root)
    requires NamespaceOk(ids) && Spelt(t, ids) && SameEntries(ids, paths) && TreeAnswers(ids, paths, value, r)
    ensures r.Tree?
    ensures root != [] ==> RowAt(t.files, Stored(root, true)) == r.root.meta && r.root.meta.path == Stored(root, true)
    ensures root == [] ==> r.root.meta == Row(NIL, "/", true, "/", 0, 0, "")
    ensures root == [] ==> RowAt(t.files, Stored(root, true)) == Row(NIL, "/", true, ".", 0, 0, "")
  {
    hide Stored, StoragePath, TreeOf, SameEntries;
    FindExact(ids, paths, root);
    if root == [] {
      RootIsMadeUp(ids, paths);
      NoRootKey(t, ids);
    } else {
      var d :| d in ids && ids[d].path == root && ids[d].isDir;
      var m := Find(paths, root).value;
      assert Unique(ids, d, m.id) && WellFormed(ids, m.id);
      assert SpeltAt(t, ids, m.id);
    }
  }

  lemma NoRootKey(t: Db, ids: Entries)
    requires NamespaceOk(ids) && Spelt(t, ids)
    ensures Stored([], true) == "/" && "/" !in t.files
  {
    hide Stored;
    NamespaceSensible(ids);
    StoredOfRoot();
    if "/" in t.files {
      assert KeySpelt(t, ids, "/");
      var id :| id in ids && KeyString(ids[id]) == "/";
      NotRootKey(ids[id].path);
      StoredText(ids[id].path, ids[id].isDir);
    }
  }

  lemma PassReaches(t: Db, ids: Entries, root: Path, keys: seq<string>, links: map<string, seq<string>>)
    requires Passed(t, ids, root, keys, links)
    ensures Descending(links) && Stored(root, true) in links
  {
    hide Before, Stored;
    StoredHead(root);
    LinksDescend(t.files, Stored(root, true), keys, links);
  }

  lemma StoredHead(root: Path)
    ensures Stored(root, true) != "" && Stored(root, true)[0] == '/'
  {
    if root != [] { RenderHead(root); }
  }

  /** Badger finds exactly the directories, whereas LocalStorage also answers for a file. */
  lemma FoundIffDirectory(t: Db, ids: Entries, root: Path)
    requires NamespaceOk(ids) && Spelt(t, ids) && StoredPath(root)
    ensures Stored(root, true) == "/" || Stored(root, true) in t.files <==> HasDirectory(ids, root)
  {
    hide Stored;
    NamespaceSensible(ids);
    if root == [] {
      StoredOfRoot();
    } else {
      hide Render;
      StoredIsClean(root);
      NotRootKey(root);
      var dir := Meta(NIL, root, true, "", 0, 0, "");
      if Stored(root, true) in t.files {
        assert KeySpelt(t, ids, Stored(root, true));
        var id :| id in ids && KeyString(ids[id]) == Stored(root, true);
        KeyStringInjective(ids[id], dir);
      }
      if IsDirectory(ids, root) {
        var d :| d in ids && ids[d].path == root && ids[d].isDir;
        assert SpeltAt(t, ids, d);
      }
    }
  }
}
