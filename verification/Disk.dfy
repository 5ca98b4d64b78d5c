/** The part of a file system the storage drivers rely on: a tree of nodes and an atomic rename. */
module Disk {
  import opened Paths

  type byte = bv8

  /** An entry of the metadata index. */
  datatype Meta = Meta(id: nat, path: Path, isDir: bool, name: string, size: nat, modified: int, comments: string)

  /** A recorded rename. */
  datatype Move = Move(from: Path, to: Path)

  /** File contents. The index and the journal are JSON files in the source; a lossless codec is assumed,
      and Torn stands for a file whose write did not finish. */
  datatype Content = Data(bytes: seq<byte>) | Index(metas: seq<Meta>) | Journal(moves: seq<Move>) | Torn

  datatype Node = Dir | File(content: Content)

  type Tree = map<Path, Node>

  predicate IsDir(t: Tree, p: Path) {
    p in t && t[p].Dir?
  }

  predicate HasParent(t: Tree, p: Path) {
    p in t && p != [] ==> IsDir(t, Parent(p))
  }

  /** Every node but the root has a directory above it. */
  ghost predicate Closed(t: Tree) {
    IsDir(t, []) && forall p {:trigger HasParent(t, p)} :: HasParent(t, p)
  }

  /** Where the entry at q comes from when `from` is renamed to `to`. */
  function Source(from: Path, to: Path, q: Path): Path {
    if to <= q then from + q[|to|..] else q
  }

  lemma SourceBack(from: Path, to: Path, q: Path)
    requires from <= q
    ensures to <= Source(to, from, q) && Source(from, to, Source(to, from, q)) == q
  {
    var s := to + q[|from|..];
    assert s[|to|..] == q[|from|..];
  }

  lemma SourceOfParent(from: Path, to: Path, q: Path)
    requires q != []
    ensures to <= q && to != q ==>
      to <= Parent(q) && Source(from, to, q) != [] && Source(from, to, Parent(q)) == Parent(Source(from, to, q))
    ensures !(to <= q) ==> !(to <= Parent(q))
  {
    if to <= q && to != q {
      assert Parent(q)[|to|..] == q[|to|..][..|q| - |to| - 1];
    }
    assert Parent(q) <= q;
  }

  ghost predicate EntryMoved(t: Tree, from: Path, to: Path, r: Tree, q: Path) {
    && (q in r <==> (to <= q || !(from <= q)) && Source(from, to, q) in t)
    && (q in r ==> r[q] == t[Source(from, to, q)])
  }

  ghost predicate IsMoved(t: Tree, from: Path, to: Path, r: Tree) {
    forall q {:trigger EntryMoved(t, from, to, r, q)} :: EntryMoved(t, from, to, r, q)
  }

  /** The tree after the subtree at `from` was renamed to `to`, whatever was at `to` being replaced. */
  ghost function Moved(t: Tree, from: Path, to: Path): (r: Tree)
    ensures IsMoved(t, from, to, r)
  {
    MovedExists(t, from, to);
    var r :| IsMoved(t, from, to, r);
    r
  }

  lemma MovedExists(t: Tree, from: Path, to: Path)
    ensures exists r :: IsMoved(t, from, to, r)
  {
    var sources := t.Keys + (set q | q in t && from <= q :: Source(to, from, q));
    var r := map q | q in sources && (to <= q || !(from <= q)) && Source(from, to, q) in t :: t[Source(from, to, q)];
    forall q ensures EntryMoved(t, from, to, r, q) {
      if to <= q {
        SourceBack(to, from, q);
      }
    }
    assert IsMoved(t, from, to, r);
  }

  /** Moved, computed. */
  method ComputeMoved(t: Tree, from: Path, to: Path) returns (r: Tree)
    ensures r == Moved(t, from, to)
  {
    var sources := t.Keys + (set q | q in t && from <= q :: Source(to, from, q));
    r := map q | q in sources && (to <= q || !(from <= q)) && Source(from, to, q) in t :: t[Source(from, to, q)];
    forall q ensures AgreeAt(r, Moved(t, from, to), q) {
      assert EntryMoved(t, from, to, Moved(t, from, to), q);
      if to <= q {
        SourceBack(to, from, q);
      }
    }
    AgreeEverywhere(r, Moved(t, from, to));
  }

  predicate AgreeAt(a: Tree, b: Tree, q: Path) {
    (q in a <==> q in b) && (q in a ==> a[q] == b[q])
  }

  lemma AgreeEverywhere(a: Tree, b: Tree)
    requires forall q :: AgreeAt(a, b, q)
    ensures a == b
  {
    assert forall q :: AgreeAt(a, b, q) ==> (q in a <==> q in b);
  }

  /** When rename(2) succeeds: the source exists, the target's parent is a directory, the target does not
      lie at or below the source, and an existing target is a file replaced by a file or an empty
      directory replaced by a directory. Renaming a path to itself is not needed and left out. */
  predicate CanRename(t: Tree, from: Path, to: Path) {
    from != [] && to != [] && from in t && IsDir(t, Parent(to)) && !(from <= to) &&
    (to in t ==> t[from].Dir? == t[to].Dir? && forall q :: q in t && to <= q ==> q == to)
  }

  /** A rename onto a free path. */
  predicate Free(t: Tree, m: Move) {
    CanRename(t, m.from, m.to) && m.to !in t
  }

  lemma NothingBelow(t: Tree, p: Path, q: Path)
    requires Closed(t) && p !in t && p <= q
    ensures q !in t
    decreases |q|
  {
    if q in t && p != q {
      assert HasParent(t, q);
      NothingBelow(t, p, Parent(q));
    }
  }

  lemma AncestorIn(t: Tree, p: Path, q: Path)
    requires Closed(t) && q in t && p <= q
    ensures p in t && (p != q ==> t[p].Dir?)
    decreases |q|
  {
    if p != q {
      assert HasParent(t, q);
      AncestorIn(t, p, Parent(q));
    }
  }

  lemma TargetNotAbove(t: Tree, from: Path, to: Path)
    requires Closed(t) && CanRename(t, from, to)
    ensures !(to <= from)
  {
    if to <= from && to !in t { NothingBelow(t, to, from); }
  }

  /** The source and the target of a transfer: neither lies at or below the other. */
  predicate Apart(t: Tree, from: Path, to: Path) {
    from != [] && to != [] && from in t && IsDir(t, Parent(to)) && !(from <= to) && !(to <= from)
  }

  lemma MovedClosed(t: Tree, from: Path, to: Path)
    requires Closed(t) && Apart(t, from, to)
    ensures Closed(Moved(t, from, to))
    ensures to in Moved(t, from, to)
  {
    var r := Moved(t, from, to);
    assert EntryMoved(t, from, to, r, to);
    assert Source(from, to, to) == from;
    assert EntryMoved(t, from, to, r, []);
    forall p ensures HasParent(r, p) {
      if p in r && p != [] {
        ParentAfterMove(t, from, to, p);
      }
    }
  }

  lemma ParentAfterMove(t: Tree, from: Path, to: Path, p: Path)
    requires Closed(t) && Apart(t, from, to)
    requires p in Moved(t, from, to) && p != []
    ensures IsDir(Moved(t, from, to), Parent(p))
  {
    SourceOfParent(from, to, p);
    assert EntryMoved(t, from, to, Moved(t, from, to), p);
    assert EntryMoved(t, from, to, Moved(t, from, to), Parent(p));
    assert HasParent(t, Source(from, to, p));
    if p == to {
      SourceOfParent(from, from, to);
      assert !(to <= Parent(to));
    } else if !(to <= p) {
      SourceOfParent(from, from, p);
    }
  }

  lemma RestoredAt(t: Tree, m: Move, q: Path)
    requires Closed(t) && Free(t, m)
    ensures AgreeAt(Moved(Moved(t, m.from, m.to), m.to, m.from), t, q)
  {
    TargetNotAbove(t, m.from, m.to);
    var r := Moved(t, m.from, m.to);
    assert EntryMoved(r, m.to, m.from, Moved(r, m.to, m.from), q);
    assert EntryMoved(t, m.from, m.to, r, Source(m.to, m.from, q));
    if m.from <= q {
      SourceBack(m.from, m.to, q);
    } else if m.to <= q {
      NothingBelow(t, m.to, q);
    }
  }

  lemma CanRenameBack(t: Tree, m: Move)
    requires Closed(t) && Free(t, m)
    ensures m.from !in Moved(t, m.from, m.to)
    ensures Free(Moved(t, m.from, m.to), Move(m.to, m.from))
  {
    TargetNotAbove(t, m.from, m.to);
    MovedClosed(t, m.from, m.to);
    assert HasParent(t, m.from);
    assert EntryMoved(t, m.from, m.to, Moved(t, m.from, m.to), m.from);
    assert EntryMoved(t, m.from, m.to, Moved(t, m.from, m.to), Parent(m.from));
    SourceOfParent(m.to, m.from, m.from);
    SourceOfParent(m.from, m.from, m.from);
    assert !(m.from <= Parent(m.from)) && !(m.to <= Parent(m.from));
  }

  /** Renaming back restores the tree. */
  lemma RenameBack(t: Tree, m: Move)
    requires Closed(t) && Free(t, m)
    ensures Moved(Moved(t, m.from, m.to), m.to, m.from) == t
  {
    var b := Moved(Moved(t, m.from, m.to), m.to, m.from);
    forall q ensures AgreeAt(b, t, q) {
      RestoredAt(t, m, q);
    }
    AgreeEverywhere(b, t);
  }

  /** A rename onto a free path leaves everything else where it is. */
  lemma OthersStay(t: Tree, m: Move, q: Path)
    requires Closed(t) && Free(t, m) && !(m.from <= q)
    ensures q in t ==> !(m.to <= q) && q in Moved(t, m.from, m.to) && Moved(t, m.from, m.to)[q] == t[q]
  {
    assert EntryMoved(t, m.from, m.to, Moved(t, m.from, m.to), q);
    if q in t && m.to <= q {
      NothingBelow(t, m.to, q);
    }
  }

  /** Nothing lies below a file. */
  lemma FileIsLeaf(t: Tree, p: Path, q: Path)
    requires Closed(t) && p in t && t[p].File? && p <= q && q in t
    ensures p == q
  {
    AncestorIn(t, p, q);
  }

  /** Renaming a file changes two entries. */
  lemma FileMoved(t: Tree, from: Path, to: Path)
    requires Closed(t) && CanRename(t, from, to) && t[from].File?
    ensures Moved(t, from, to) == (t - {from})[to := t[from]]
  {
    var r, e := Moved(t, from, to), (t - {from})[to := t[from]];
    TargetNotAbove(t, from, to);
    forall q ensures AgreeAt(r, e, q) {
      assert EntryMoved(t, from, to, r, q);
      if to == q {
        assert Source(from, to, q) == from;
      } else if to <= q {
        TargetIsLeaf(t, from, to, q);
        if Source(from, to, q) in t { FileIsLeaf(t, from, Source(from, to, q)); }
      } else if from <= q && q in t {
        FileIsLeaf(t, from, q);
      }
    }
    AgreeEverywhere(r, e);
  }

  lemma TargetIsLeaf(t: Tree, from: Path, to: Path, q: Path)
    requires Closed(t) && CanRename(t, from, to) && to <= q && to != q
    ensures q !in t
    ensures Source(from, to, q) != from
  {
    if to !in t { NothingBelow(t, to, q); }
    assert |Source(from, to, q)| == |from| + |q| - |to|;
  }

  /** Adding a file or an empty directory below a directory. */
  lemma AddedClosed(t: Tree, p: Path, n: Node)
    requires Closed(t) && p != [] && p !in t && IsDir(t, Parent(p))
    ensures Closed(t[p := n])
  {
    var t' := t[p := n];
    forall q ensures HasParent(t', q) {
      assert HasParent(t, q);
    }
  }
}
