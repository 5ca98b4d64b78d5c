/** The staging closures of the LocalStorage mutations: what each puts into the transaction directory and
    which moves it asks for. */
module StagingArea {
  import opened Paths
  import opened Disk
  import opened Journal
  import opened Recovery
  import opened Transactions
  import opened Store
  import opened RootDirectory

  datatype Stage =
    | NewFile(path: Path, bytes: seq<byte>)
    | NewDirectory(path: Path)
    | Overwrite(path: Path, bytes: seq<byte>)
    | Evict(path: Path)
    | NoStage
    | Transfer(src: Path, dst: Path, copy: bool, replace: bool)

  function ChangeOf(s: Stage): Change {
    match s
    case NewFile(p, b) => Put(p, File(Data(b)))
    case NewDirectory(p) => Put(p, Dir)
    case Overwrite(p, b) => Put(p, File(Data(b)))
    case Evict(p) => Remove(p)
    case NoStage => Nothing
    case Transfer(src, dst, copy, _) => if copy then Duplicate(src, dst) else Relocate(src, dst)
  }

  /** What the index already tells when the closure starts. */
  ghost predicate Prepared(u: Tree, s: Stage) {
    match s
    case NewFile(p, _) => p != [] && StoredPath(p) && IsDir(u, Parent(p))
    case NewDirectory(p) => p != [] && StoredPath(p) && IsDir(u, Parent(p))
    case Overwrite(p, _) => p != [] && StoredPath(p) && IsDir(u, Parent(p)) && p in u && u[p].File?
    case Evict(p) => p != [] && StoredPath(p) && p in u
    case NoStage => true
    case Transfer(src, dst, copy, replace) =>
      Apart(u, src, dst) && StoredPath(src) && StoredPath(dst) && (replace ==> dst in u)
  }

  /** What the closure itself checks on disk. */
  predicate Unoccupied(u: Tree, s: Stage) {
    match s
    case NewFile(p, _) => p !in u
    case NewDirectory(p) => p !in u
    case Transfer(_, dst, _, replace) => !replace ==> dst !in u
    case _ => true
  }

  /** Rolling back a journal of these moves survives an arbitrary order of clean-up. */
  predicate NeedsAtomicCleanup(s: Stage) {
    match s
    case Overwrite(_, _) => true
    case Transfer(_, _, copy, replace) => copy && replace
    case _ => false
  }

  /** The transaction directory has just been created. */
  ghost predicate Begun(t: Tree, pre: Tree) {
    Closed(pre) && TX !in pre && t == pre[TX := Dir]
  }

  lemma BegunStaging(t: Tree, pre: Tree)
    requires Begun(t, pre)
    ensures Staging(t, pre) && STAGED !in t && OLD !in t && IsDir(t, Parent(STAGED))
    ensures forall q :: q in t && TX <= q ==> q == TX
  {
    ControlPaths();
    AddedClosed(pre, TX, Dir);
    forall q | q in t && TX <= q ensures q == TX {
      if q != TX { NothingBelow(pre, TX, q); }
    }
    forall q | q in pre ensures !(TX <= q) {
      if TX <= q { NothingBelow(pre, TX, q); }
    }
    assert User(t) == pre;
    assert |JOURNAL| == |TX_INDEX| == |JOURNAL_NEW| == |STAGED| == |OLD| == 2;
  }

  lemma PutStaged(t: Tree, pre: Tree, p: Path, node: Node)
    requires Begun(t, pre) && p != [] && StoredPath(p) && IsDir(pre, Parent(p)) && (p in pre ==> pre[p].File?)
    ensures Staging(t[STAGED := node], pre)
    ensures StagedFor(t[STAGED := node], Put(p, node), Install(p in pre, STAGED, p))
  {
    var s := t[STAGED := node];
    BegunStaging(t, pre);
    ControlPaths();
    StagingPaths();
    UserPath(p);
    AddedStaging(t, pre, STAGED, node);
    StagedNames();
    forall q | q in s && STAGED <= q ensures q == STAGED {
      assert TX <= q;
    }
    assert !(STAGED <= p) by { assert TX <= STAGED; }
    assert IsDir(s, Parent(p)) by { assert Parent(p) <= p; }
  }

  lemma StagedNames()
    ensures STAGED != JOURNAL && STAGED != TX_INDEX && STAGED != JOURNAL_NEW && STAGED != OLD
    ensures !(STAGED <= TX) && TX <= STAGED
    ensures !(STAGED <= JOURNAL) && !(STAGED <= TX_INDEX) && !(STAGED <= JOURNAL_NEW) && !(STAGED <= OLD)
  {
    StagingPaths();
    assert Spares([Move(STAGED, OLD)][0], TX_INDEX) && Spares([Move(STAGED, OLD)][0], JOURNAL);
    assert |STAGED| == |JOURNAL_NEW|;
  }

  lemma EvictStaged(t: Tree, pre: Tree, p: Path)
    requires Begun(t, pre) && p in pre && p != [] && StoredPath(p)
    ensures Staging(t, pre) && StagedFor(t, Remove(p), [Move(p, OLD)])
  {
    BegunStaging(t, pre);
  }

  lemma RelocateStaged(t: Tree, pre: Tree, src: Path, dst: Path)
    requires Begun(t, pre) && Apart(pre, src, dst) && StoredPath(src) && StoredPath(dst)
    ensures Staging(t, pre) && StagedFor(t, Relocate(src, dst), Install(dst in pre, src, dst))
  {
    BegunStaging(t, pre);
    UserPath(dst);
    assert Parent(dst) <= dst;
  }

  lemma DuplicateStaged(t: Tree, pre: Tree, src: Path, dst: Path)
    requires Staging(t, pre) && OLD !in t && Apart(pre, src, dst) && StoredPath(src) && StoredPath(dst)
    requires forall q {:trigger SameBelow(t, src, STAGED, q)} :: SameBelow(t, src, STAGED, q)
    ensures StagedFor(t, Duplicate(src, dst), Install(dst in pre, STAGED, dst))
  {
    UserPath(src);
    UserPath(dst);
    StagedNames();
    assert Parent(dst) <= dst;
    assert !(TX <= dst) && !(TX <= src);
    assert SameBelow(t, src, STAGED, STAGED);
    assert Source(src, STAGED, STAGED) == src;
    assert !(STAGED <= dst);
    assert dst in t <==> dst in pre;
  }

  // ----- copyTree -----

  ghost predicate CopiedBelow(t: Tree, pre: Tree, src: Path, done: set<Path>, q: Path) {
    STAGED <= q ==>
      (q in t <==> Source(src, STAGED, q) in done) &&
      (q in t ==> Source(src, STAGED, q) in pre && t[q] == pre[Source(src, STAGED, q)])
  }

  /** The entries of the subtree in `done` have been copied, parents before children. */
  ghost predicate Copying(t: Tree, pre: Tree, src: Path, done: set<Path>) {
    && Staging(t, pre) && Closed(pre) && OLD !in t
    && (forall p :: p in done ==> p in pre && src <= p)
    && (forall q {:trigger CopiedBelow(t, pre, src, done, q)} :: CopiedBelow(t, pre, src, done, q))
  }

  lemma CopyingStarts(t: Tree, pre: Tree, src: Path)
    requires Begun(t, pre)
    ensures Copying(t, pre, src, {})
  {
    BegunStaging(t, pre);
    StagedNames();
    forall q ensures CopiedBelow(t, pre, src, {}, q) {
      assert STAGED <= q ==> TX <= q;
    }
  }

  /** The next entry can be created: it is not there yet, and its parent is. */
  lemma CopyTarget(t: Tree, pre: Tree, src: Path, done: set<Path>, p: Path)
    requires Copying(t, pre, src, done) && p in pre && src <= p && src != [] && p !in done
    requires p == src || Parent(p) in done
    ensures
      var to := Source(STAGED, src, p);
      STAGED <= to && TX <= to && to != [] && Source(src, STAGED, to) == p && to !in t && IsDir(t, Parent(to))
  {
    var to := Source(STAGED, src, p);
    SourceBack(src, STAGED, p);
    StagedNames();
    ControlPaths();
    assert CopiedBelow(t, pre, src, done, to);
    if p == src {
      assert to == STAGED;
    } else {
      SourceOfParent(STAGED, src, p);
      SourceBack(src, STAGED, Parent(p));
      assert CopiedBelow(t, pre, src, done, Parent(to));
      assert HasParent(pre, p);
    }
  }

  lemma CopyStep(t: Tree, pre: Tree, src: Path, done: set<Path>, p: Path)
    requires Copying(t, pre, src, done) && p in pre && src <= p && src != [] && p !in done
    requires p == src || Parent(p) in done
    ensures Copying(t[Source(STAGED, src, p) := pre[p]], pre, src, done + {p})
  {
    var to := Source(STAGED, src, p);
    var r := t[to := pre[p]];
    CopyTarget(t, pre, src, done, p);
    AddedStaging(t, pre, to, pre[p]);
    StagedNames();
    forall q ensures CopiedBelow(r, pre, src, done + {p}, q) {
      assert CopiedBelow(t, pre, src, done, q);
      if STAGED <= q && Source(src, STAGED, q) == p {
        SourceBack(STAGED, src, q);
      }
    }
    NotUnderStaged(to);
  }

  lemma NotUnderStaged(q: Path)
    requires STAGED <= q
    ensures q != JOURNAL && q != TX_INDEX && q != JOURNAL_NEW && q != OLD
  {
    StagedNames();
  }

  lemma CopyTorn(t: Tree, pre: Tree, src: Path, done: set<Path>, p: Path)
    requires Copying(t, pre, src, done) && p in pre && src <= p && src != [] && p !in done
    requires p == src || Parent(p) in done
    ensures Staging(t[Source(STAGED, src, p) := File(Torn)], pre)
  {
    var to := Source(STAGED, src, p);
    CopyTarget(t, pre, src, done, p);
    AddedStaging(t, pre, to, File(Torn));
    NotUnderStaged(to);
  }

  lemma CopyComplete(t: Tree, pre: Tree, src: Path)
    requires Copying(t, pre, src, (set p | p in pre && src <= p)) && StoredPath(src) && src != []
    ensures forall q {:trigger SameBelow(t, src, STAGED, q)} :: SameBelow(t, src, STAGED, q)
  {
    UserPath(src);
    forall q ensures SameBelow(t, src, STAGED, q) {
      assert CopiedBelow(t, pre, src, (set p | p in pre && src <= p), q);
      if STAGED <= q {
        var s := Source(src, STAGED, q);
        assert src <= s;
        if TX <= s { PrefixesNest(src, TX, s); }
      }
    }
  }

  lemma NextToCopy(pre: Tree, src: Path, done: set<Path>, p: Path)
    requires Closed(pre) && src in pre && p in pre && src <= p && p !in done && src != []
    ensures exists q :: q in pre && src <= q && q !in done && (q == src || Parent(q) in done)
    decreases |p|
  {
    if p != src && Parent(p) !in done {
      assert HasParent(pre, p);
      NextToCopy(pre, src, done, Parent(p));
    }
  }

  method CopyTree(root: Root, src: Path, ghost pre: Tree) returns (r: Outcome)
    requires Begun(root.tree, pre) && src in pre && src != [] && StoredPath(src)
    modifies root
    ensures Staging(root.tree, pre) && OLD !in root.tree
    ensures r.Done? ==> forall q {:trigger SameBelow(root.tree, src, STAGED, q)} :: SameBelow(root.tree, src, STAGED, q)
    ensures root.reliable ==> r.Done?
    ensures r.Failed? ==> r.error == IO
  {
    CopyingStarts(root.tree, pre, src);
    UserPath(src);
    var entries := set p | p in root.tree && src <= p;
    assert entries == set p | p in pre && src <= p by { SubtreeIsUser(pre, src); }
    var done := {};
    r := Done;
    while entries - done != {}
      invariant done <= entries && r.Done? && Copying(root.tree, pre, src, done)
      decreases entries - done
    {
      var some :| some in entries - done;
      NextToCopy(pre, src, done, some);
      var p :| p in entries && p !in done && (p == src || Parent(p) in done);
      r := CopyEntry(root, src, p, pre, done);
      if !r.Done? { return; }
      done := done + {p};
    }
    forall p | p in entries ensures p in done {
      assert p !in entries - done;
    }
    assert done == entries;
    CopyComplete(root.tree, pre, src);
  }

  lemma SubtreeIsUser(pre: Tree, src: Path)
    requires !(src <= TX)
    ensures forall p {:trigger p in pre} :: src <= p ==> (p in pre[TX := Dir] <==> p in pre)
  {
  }

  method CopyEntry(root: Root, src: Path, p: Path, ghost pre: Tree, ghost done: set<Path>) returns (r: Outcome)
    requires Copying(root.tree, pre, src, done) && p in pre && src <= p && src != [] && p !in done && !(TX <= p)
    requires p == src || Parent(p) in done
    modifies root
    ensures Staging(root.tree, pre) && OLD !in root.tree
    ensures r.Done? ==> Copying(root.tree, pre, src, done + {p})
    ensures root.reliable ==> r.Done?
    ensures r.Failed? ==> r.error == IO
  {
    ghost var t := root.tree;
    CopyTarget(t, pre, src, done, p);
    CopyStep(t, pre, src, done, p);
    CopyTorn(t, pre, src, done, p);
    NotUnderStaged(Source(STAGED, src, p));
    var node;
    r, node := root.Lstat(p);
    if !r.Done? { return; }
    assert t[p] == pre[p] by { assert p in User(t); }
    if node.value.Dir? {
      r := root.Mkdir(Source(STAGED, src, p));
    } else {
      r := root.WriteSynced(Source(STAGED, src, p), node.value.content);
    }
  }

  // ----- The closures -----

  /** The staging closure of each mutation. On success the journal's moves carry out the change; on failure
      nothing outside the transaction directory has changed. */
  method RunStage(root: Root, s: Stage, ghost pre: Tree) returns (r: Outcome, moves: seq<Move>)
    requires Begun(root.tree, pre) && Prepared(pre, s)
    modifies root
    ensures Staging(root.tree, pre)
    ensures r.Done? ==> Unoccupied(pre, s) && StagedFor(root.tree, ChangeOf(s), moves)
    ensures root.reliable && Unoccupied(pre, s) ==> r.Done?
    ensures r.Failed? ==> r.error == IO || (r.error == AlreadyExists && !Unoccupied(pre, s))
    ensures r.Done? && moves != [] && !NeedsAtomicCleanup(s) ==> moves[|moves| - 1].from != STAGED || moves[|moves| - 1].to !in root.tree
  {
    BegunStaging(root.tree, pre);
    moves := [];
    match s
    case NoStage =>
      r := Done;
    case NewFile(p, bytes) =>
      r := StageNew(root, p, File(Data(bytes)), pre);
      moves := Install(false, STAGED, p);
    case NewDirectory(p) =>
      r := StageNew(root, p, Dir, pre);
      moves := Install(false, STAGED, p);
    case Overwrite(p, bytes) =>
      PutStaged(root.tree, pre, p, File(Data(bytes)));
      TornStaged(root.tree, pre);
      r := root.WriteSynced(STAGED, Data(bytes));
      moves := Install(true, STAGED, p);
    case Evict(p) =>
      EvictStaged(root.tree, pre, p);
      r := Done;
      moves := [Move(p, OLD)];
    case Transfer(src, dst, copy, replace) =>
      r, moves := StageTransfer(root, src, dst, copy, replace, pre);
  }

  lemma TornStaged(t: Tree, pre: Tree)
    requires Begun(t, pre)
    ensures Staging(t[STAGED := File(Torn)], pre)
  {
    BegunStaging(t, pre);
    ControlPaths();
    StagedNames();
    AddedStaging(t, pre, STAGED, File(Torn));
  }

  /** Create and Mkdir: the path must be free on disk as well. */
  method StageNew(root: Root, p: Path, node: Node, ghost pre: Tree) returns (r: Outcome)
    requires Begun(root.tree, pre) && p != [] && StoredPath(p) && IsDir(pre, Parent(p))
    modifies root
    ensures Staging(root.tree, pre)
    ensures r.Done? ==> p !in pre && StagedFor(root.tree, Put(p, node), Install(false, STAGED, p)) && p !in root.tree
    ensures root.reliable && p !in pre ==> r.Done?
    ensures r.Failed? ==> r.error == IO || (r.error == AlreadyExists && p in pre)
  {
    BegunStaging(root.tree, pre);
    UserPath(p);
    assert p in root.tree <==> p in pre;
    var occupant;
    r, occupant := root.Lstat(p);
    if !r.Done? { return; }
    if occupant.Some? { return Failed(AlreadyExists); }
    PutStaged(root.tree, pre, p, node);
    TornStaged(root.tree, pre);
    StagedNames();
    if node.Dir? {
      r := root.Mkdir(STAGED);
    } else {
      r := root.WriteSynced(STAGED, node.content);
    }
    assert !(STAGED <= p) by { assert TX <= STAGED; }
  }

  method StageTransfer(root: Root, src: Path, dst: Path, copy: bool, replace: bool, ghost pre: Tree)
    returns (r: Outcome, moves: seq<Move>)
    requires Begun(root.tree, pre) && Prepared(pre, Transfer(src, dst, copy, replace))
    modifies root
    ensures Staging(root.tree, pre)
    ensures r.Done? ==> Unoccupied(pre, Transfer(src, dst, copy, replace))
    ensures root.reliable && (replace || dst !in pre) ==> r.Done?
    ensures r.Failed? ==> r.error == IO || (r.error == AlreadyExists && !replace && dst in pre)
    ensures r.Done? ==> StagedFor(root.tree, ChangeOf(Transfer(src, dst, copy, replace)), moves)
    ensures r.Done? ==> moves == Install(replace, if copy then STAGED else src, dst) && (replace <==> dst in root.tree)
  {
    BegunStaging(root.tree, pre);
    moves := Install(replace, if copy then STAGED else src, dst);
    r := Done;
    if copy {
      r := CopyTree(root, src, pre);
      if !r.Done? { return; }
    }
    UserPath(dst);
    assert dst in root.tree <==> dst in pre by { assert dst in User(root.tree) <==> dst in root.tree; }
    if !replace {
      var occupant;
      r, occupant := root.Lstat(dst);
      if !r.Done? { return; }
      if occupant.Some? { return Failed(AlreadyExists), moves; }
    }
    if copy {
      DuplicateStaged(root.tree, pre, src, dst);
    } else {
      RelocateStaged(root.tree, pre, src, dst);
    }
  }
}
