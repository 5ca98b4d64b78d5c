/** What Tree returns in both drivers, and what it means to be the tree of a namespace below a path. */
module TreeShapes {
  import opened Paths
  import opened Disk
  import opened Namespace
  import opened IndexFiles

  datatype TreeNode = TreeNode(meta: Row, children: seq<TreeNode>)

  /** The row of an entry that lies directly in p. */
  ghost predicate ChildRow(ids: Entries, row: Row, p: Path) {
    row.id in ids && row == RowOf(ids[row.id]) && InDirectory(ids[row.id], p)
  }

  predicate InDirectory(m: Meta, p: Path) {
    m.path != [] && Parent(m.path) == p
  }

  ghost predicate HasChild(children: seq<TreeNode>, id: Id) {
    exists i :: 0 <= i < |children| && children[i].meta.id == id
  }

  ghost predicate AllHung(ids: Entries, children: seq<TreeNode>, p: Path) {
    forall id {:trigger HasChild(children, id)} :: id in ids && InDirectory(ids[id], p) ==> HasChild(children, id)
  }

  ghost predicate Distinct(children: seq<TreeNode>) {
    forall i, j :: 0 <= i < j < |children| ==> children[i].meta.id != children[j].meta.id
  }

  /** Each node's children are exactly the entries that lie directly in it, in some order, all the way down. */
  ghost predicate TreeOf(ids: Entries, node: TreeNode, p: Path)
    decreases node
  {
    && Distinct(node.children) && AllHung(ids, node.children, p)
    && (forall i :: 0 <= i < |node.children| ==>
          && ChildRow(ids, node.children[i].meta, p)
          && TreeOf(ids, node.children[i], ids[node.children[i].meta.id].path))
  }

  // ----- Every entry exactly once -----

  /** How often an entry occurs in a tree. */
  function Tally(node: TreeNode, id: Id): nat
    decreases node, 1
  {
    (if node.meta.id == id then 1 else 0) + TallyAll(node.children, id)
  }

  function TallyAll(nodes: seq<TreeNode>, id: Id): nat
    decreases nodes, 0
  {
    if nodes == [] then 0 else Tally(nodes[0], id) + TallyAll(nodes[1..], id)
  }

  ghost predicate OnlyAt(nodes: seq<TreeNode>, id: Id, at: int) {
    forall i {:trigger Tally(nodes[i], id)} :: 0 <= i < |nodes| ==> Tally(nodes[i], id) == if i == at then 1 else 0
  }

  lemma {:induction false} TallyOfOne(nodes: seq<TreeNode>, id: Id, at: int)
    requires OnlyAt(nodes, id, at)
    ensures TallyAll(nodes, id) == if 0 <= at < |nodes| then 1 else 0
  {
    hide Tally;
    if nodes != [] {
      var rest := nodes[1..];
      forall i {:trigger Tally(rest[i], id)} | 0 <= i < |rest| ensures Tally(rest[i], id) == if i == at - 1 then 1 else 0 {
        assert rest[i] == nodes[i + 1];
      }
      TallyOfOne(rest, id, at - 1);
    }
  }

  /** Every entry below a path passes through a child of the path. */
  lemma {:induction false} PassesThrough(ids: Entries, id: Id, p: Path) returns (e: Id)
    requires NamespaceOk(ids) && id in ids && p < ids[id].path
    ensures e in ids && InDirectory(ids[e], p) && ids[e].path <= ids[id].path
    decreases |ids[id].path|
  {
    assert ParentIndexed(ids, id);
    if Parent(ids[id].path) == p {
      e := id;
    } else {
      var d :| d in ids && ids[d].path == Parent(ids[id].path) && ids[d].isDir;
      e := PassesThrough(ids, d, p);
    }
  }

  /** Below a node of a tree every entry under its path occurs exactly once, and nothing else occurs. */
  lemma {:induction false} ExactlyOnce(ids: Entries, node: TreeNode, p: Path, id: Id)
    requires NamespaceOk(ids) && TreeOf(ids, node, p)
    ensures TallyAll(node.children, id) == if id in ids && p < ids[id].path then 1 else 0
    decreases node, 0
  {
    hide RowOf, StoredPath, Parent;
    var at: int := -1;
    if id in ids && p < ids[id].path {
      var e := PassesThrough(ids, id, p);
      assert HasChild(node.children, e);
      at :| 0 <= at < |node.children| && node.children[at].meta.id == e;
    }
    forall i {:trigger Tally(node.children[i], id)} | 0 <= i < |node.children|
      ensures Tally(node.children[i], id) == if i == at then 1 else 0
    {
      ChildOnce(ids, node.children[i], p, id);
      if i != at && at != -1 {
        SiblingsApart(ids, node.children[i].meta.id, node.children[at].meta.id, p, id);
      }
    }
    TallyOfOne(node.children, id, at);
  }

  lemma {:induction false} ChildOnce(ids: Entries, child: TreeNode, p: Path, id: Id)
    requires NamespaceOk(ids) && ChildRow(ids, child.meta, p) && TreeOf(ids, child, ids[child.meta.id].path)
    ensures Tally(child, id) == if id in ids && ids[child.meta.id].path <= ids[id].path then 1 else 0
    ensures Tally(child, id) == 1 ==> p < ids[id].path
    decreases child, 1
  {
    hide RowOf, StoredPath;
    var c := child.meta.id;
    ExactlyOnce(ids, child, ids[c].path, id);
    if id in ids { assert Unique(ids, c, id); }
  }

  /** Two children of one directory are not above the same entry. */
  lemma SiblingsApart(ids: Entries, a: Id, b: Id, p: Path, id: Id)
    requires NamespaceOk(ids) && a in ids && b in ids && a != b && id in ids
    requires InDirectory(ids[a], p) && InDirectory(ids[b], p)
    ensures !(ids[a].path <= ids[id].path && ids[b].path <= ids[id].path)
  {
    assert Unique(ids, a, b);
    assert |ids[a].path| == |ids[b].path|;
  }

  // ----- Two trees of one namespace -----

  /** The same rows below, up to the order of siblings. */
  ghost predicate SameBelow(a: TreeNode, b: TreeNode)
    decreases a, 0
  {
    && (forall i :: 0 <= i < |a.children| ==> Matched(a.children[i], b.children))
    && (forall i {:trigger b.children[i]} :: 0 <= i < |b.children| ==> Occurs(b.children[i].meta, a.children))
  }

  ghost predicate Matched(x: TreeNode, others: seq<TreeNode>)
    decreases x, 1
  {
    exists j :: 0 <= j < |others| && others[j].meta == x.meta && SameBelow(x, others[j])
  }

  ghost predicate Occurs(row: Row, nodes: seq<TreeNode>) {
    exists j :: 0 <= j < |nodes| && nodes[j].meta == row
  }

  /** A namespace has one tree below a path. */
  lemma {:induction false} OneTree(ids: Entries, a: TreeNode, b: TreeNode, p: Path)
    requires TreeOf(ids, a, p) && TreeOf(ids, b, p)
    ensures SameBelow(a, b)
    decreases a
  {
    hide RowOf;
    forall i | 0 <= i < |a.children| ensures Matched(a.children[i], b.children) {
      var id := a.children[i].meta.id;
      assert HasChild(b.children, id);
      var j :| 0 <= j < |b.children| && b.children[j].meta.id == id;
      OneTree(ids, a.children[i], b.children[j], ids[id].path);
    }
    forall i | 0 <= i < |b.children| ensures Occurs(b.children[i].meta, a.children) {
      var id := b.children[i].meta.id;
      assert HasChild(a.children, id);
      var j :| 0 <= j < |a.children| && a.children[j].meta.id == id;
    }
  }
}
