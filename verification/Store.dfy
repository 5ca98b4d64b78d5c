/** What a LocalStorage holds: a directory tree, an index file and two maps that agree; and what each
    mutation does to the user's part of the tree. */
module Store {
  import opened Paths
  import opened Disk
  import opened Journal
  import opened Recovery
  import opened Plans
  import opened Swaps
  import opened Namespace
  import opened Transactions
  import opened RootDirectory

  // ----- Consistency -----

  predicate Matches(t: Tree, m: Meta) {
    m.path in t &&
    if m.isDir then t[m.path].Dir?
    else t[m.path].File? && t[m.path].content.Data? && |t[m.path].content.bytes| == m.size
  }

  ghost predicate OnDisk(t: Tree, ids: Entries) {
    forall id {:trigger Matches(t, ids[id])} :: id in ids ==> Matches(t, ids[id])
  }

  ghost predicate Recorded(metas: seq<Meta>, id: Id) {
    exists i :: 0 <= i < |metas| && metas[i].id == id
  }

  /** The index file lists exactly the entries, in any order. */
  ghost predicate Lists(metas: seq<Meta>, ids: Entries) {
    && (forall i :: 0 <= i < |metas| ==> metas[i].id in ids && ids[metas[i].id] == metas[i])
    && (forall i, j :: 0 <= i < j < |metas| ==> metas[i].id != metas[j].id)
    && (forall id {:trigger Recorded(metas, id)} :: id in ids ==> Recorded(metas, id))
  }

  ghost predicate Indexed(t: Tree, ids: Entries) {
    if INDEX in t then t[INDEX].File? && t[INDEX].content.Index? && Lists(t[INDEX].content.metas, ids)
    else ids == map[]
  }

  predicate NamedAt(t: Tree, p: Path) {
    p in t && p != [] ==> IsInternalPath(p)
  }

  /** Whatever lies in the directory, indexed or not, could be named in a journal. */
  ghost predicate Named(t: Tree) {
    forall p {:trigger NamedAt(t, p)} :: NamedAt(t, p)
  }

  ghost predicate Consistent(t: Tree, ids: Entries, paths: Lookup) {
    && Closed(t) && TX !in t && Named(t)
    && NamespaceOk(ids) && SameEntries(ids, paths) && OnDisk(t, ids) && Indexed(t, ids)
  }

  // ----- User paths and control paths -----

  /** A stored path never meets the paths the driver reserves. */
  lemma UserPath(p: Path)
    requires StoredPath(p) && p != []
    ensures !(TX <= p) && !(p <= TX) && p != INDEX && !(p <= INDEX) && !(INDEX <= p) && IsInternalPath(p)
    ensures !(p <= TX_INDEX) && !(p <= JOURNAL) && !(p <= JOURNAL_NEW) && !(p <= STAGED) && !(p <= OLD)
  {
    assert StoredName(p[0]);
    assert ".vfs" <= TX[0] && ".vfs" <= INDEX[0];
    forall i | 0 <= i < |p| ensures CleanName(p[i]) && !HasForbidden(p[i]) {
      assert StoredName(p[i]);
    }
  }

  lemma StagingPaths()
    ensures IsInternalPath(STAGED) && IsInternalPath(OLD)
    ensures !(STAGED <= OLD) && !(OLD <= STAGED)
    ensures SparesControlFiles([Move(STAGED, OLD)]) && STAGED != JOURNAL_NEW && OLD != JOURNAL_NEW
  {
    ControlPaths();
    assert STAGED[1] == "new" && OLD[1] == "old" && TX_INDEX[1] == "index";
    assert JOURNAL[1] == "journal" && JOURNAL_NEW[1] == "journal.new";
    assert STAGED[1][0] != OLD[1][0];
    assert |JOURNAL_NEW[1]| != |STAGED[1]|;
    assert StagingName("new") && StagingName("old") && StagingName(".vfs-transaction");
  }

  predicate StagingName(c: string) {
    CleanName(c) && !HasForbidden(c)
  }

  // ----- Installing one entry -----

  /** The moves of Create, Write, Mkdir, Move and Copy: put aside what is at dst, then install. */
  function Install(replace: bool, source: Path, dst: Path): seq<Move> {
    (if replace then [Move(dst, OLD)] else []) + [Move(source, dst)]
  }

  /** What the driver checks or stages before it journals an installation. */
  ghost predicate Installable(t: Tree, replace: bool, source: Path, dst: Path) {
    && Closed(t) && IsDir(t, TX) && OLD !in t
    && StoredPath(dst) && dst != [] && IsDir(t, Parent(dst)) && (replace <==> dst in t)
    && source in t && (source == STAGED || (StoredPath(source) && source != []))
    && !(source <= dst) && !(dst <= source)
  }

  lemma InstallStatic(t: Tree, replace: bool, source: Path, dst: Path)
    requires Installable(t, replace, source, dst)
    ensures Static(t, Install(replace, source, dst))
  {
    var moves := Install(replace, source, dst);
    var last := moves[|moves| - 1];
    ControlPaths();
    StagingPaths();
    UserPath(dst);
    if source != STAGED { UserPath(source); }
    assert last == Move(source, dst) && MoveReady(t, last);
    assert Parent(dst) <= dst;
    assert !(source <= Parent(dst));
    assert !(source <= TX) by { if source == STAGED { assert |TX| < |STAGED|; } }
    if replace {
      assert moves[0] == Move(dst, OLD);
      assert MoveReady(t, moves[0]);
      assert !(OLD <= dst) by { assert TX <= OLD; }
      assert Unnested(moves[0], moves[1]) && Unnested(moves[1], moves[0]);
      assert FreedBefore(t, moves, 0) && FreedBefore(t, moves, 1);
    }
  }

  lemma InstallJournalable(t: Tree, replace: bool, source: Path, dst: Path, atomic: bool)
    requires Installable(t, replace, source, dst)
    requires atomic || source != STAGED || !replace
    ensures Journalable(t, Install(replace, source, dst), atomic)
  {
    InstallStatic(t, replace, source, dst);
    ControlPaths();
    StagingPaths();
    UserPath(dst);
    if source != STAGED { UserPath(source); }
    var moves := Install(replace, source, dst);
    assert Spares([Move(STAGED, OLD)][0], TX);
    forall i | 0 <= i < |moves|
      ensures IsInternalPath(moves[i].from) && IsInternalPath(moves[i].to) && moves[i].to != JOURNAL_NEW
      ensures Spares(moves[i], TX) && Spares(moves[i], JOURNAL) && Spares(moves[i], TX_INDEX) && Spares(moves[i], INDEX)
      ensures atomic || Harmless(t, moves[i])
    {
      assert moves[i] == Move(source, dst) || moves[i] == Move(dst, OLD);
      assert TX <= JOURNAL_NEW;
    }
  }

  /** A rolled-back installation survives an arbitrary order of clean-up exactly if it does not replace
      something with staged content: Write and a replacing Copy do not. */
  lemma InstallCleanupIff(t: Tree, replace: bool, source: Path, dst: Path)
    requires Installable(t, replace, source, dst) && IsJournal(t) && JournalOf(t) == Install(replace, source, dst) && TX_INDEX in t
    ensures (forall t' :: PartlyCleaned(t, t') ==> Recovered(t') == User(t)) <==> source != STAGED || !replace
  {
    hide TX, STAGED, OLD, JOURNAL, TX_INDEX, JOURNAL_NEW, StoredPath, PartlyCleaned, Recovered;
    var moves := Install(replace, source, dst);
    var n: nat := |moves| - 1;
    InstallStatic(t, replace, source, dst);
    StaticIsPlan(t, moves);
    InstallEvicts(t, replace, source, dst);
    CleanupOrderIrrelevantIff(t, moves);
    UserPath(dst);
    if source == STAGED { StagedIsInternal(); } else { UserPath(source); }
    assert moves[n] == Move(source, dst);
    if replace {
      assert moves[0] == Move(dst, OLD);
      assert Harmless(t, moves[0]);
    }
    assert Harmless(t, moves[n]) <==> source != STAGED || !replace;
  }

  lemma StagedIsInternal()
    ensures TX <= STAGED
  {
  }

  lemma InstallEvicts(t: Tree, replace: bool, source: Path, dst: Path)
    requires Installable(t, replace, source, dst)
    ensures Evicts(t, Install(replace, source, dst))
  {
    hide JOURNAL, TX_INDEX, JOURNAL_NEW, INDEX, StoredPath, IsInternalPath, Closed;
    StagingPaths();
    ControlPaths();
    UserPath(dst);
    if source != STAGED { UserPath(source); }
    assert Spares([Move(STAGED, OLD)][0], JOURNAL) && Spares([Move(STAGED, OLD)][0], TX_INDEX);
    assert TX <= OLD;
  }

  /** Where an installation leaves every user path. */
  lemma InstalledAt(t: Tree, replace: bool, source: Path, dst: Path, q: Path)
    requires Installable(t, replace, source, dst) && !(TX <= q)
    ensures
      var r := After(t, Install(replace, source, dst), |Install(replace, source, dst)|);
      (q in r <==> (dst <= q || !(source <= q)) && Source(source, dst, q) in t) &&
      (q in r ==> r[q] == t[Source(source, dst, q)])
  {
    var moves := Install(replace, source, dst);
    var n := |moves|;
    UserPath(dst);
    StagingPaths();
    var a := After(t, moves, n - 1);
    var r := After(t, moves, n);
    assert moves[n - 1] == Move(source, dst);
    assert r == Moved(a, source, dst);
    assert EntryMoved(a, source, dst, r, q);
    var s := Source(source, dst, q);
    assert After(t, moves, 0) == t;
    if replace {
      assert a == Moved(t, dst, OLD);
      assert EntryMoved(t, dst, OLD, a, s);
      assert TX <= OLD;
      if dst <= q {
        assert source <= s;
        NotBelowOther(source, dst, s);
        NotBelowOther(source, OLD, s);
      }
    }
  }

  lemma PrefixesNest(a: Path, b: Path, q: Path)
    requires a <= q && b <= q
    ensures a <= b || b <= a
  {
    if |a| <= |b| {
      assert a == q[..|a|] == b[..|a|];
    } else {
      assert b == q[..|b|] == a[..|b|];
    }
  }

  lemma NotBelowOther(a: Path, b: Path, q: Path)
    requires a <= q && !(a <= b) && !(b <= a)
    ensures !(b <= q)
  {
    if b <= q { PrefixesNest(a, b, q); }
  }

  // ----- What a mutation does to the user's tree -----

  datatype Change =
    | Nothing
    | Put(path: Path, node: Node)
    | Remove(path: Path)
    | Relocate(src: Path, dst: Path)
    | Duplicate(src: Path, dst: Path)
    | Replace(tree: Tree)

  ghost predicate EntryCopied(t: Tree, src: Path, dst: Path, r: Tree, q: Path) {
    (q in r <==> Source(src, dst, q) in t) && (q in r ==> r[q] == t[Source(src, dst, q)])
  }

  ghost predicate IsCopied(t: Tree, src: Path, dst: Path, r: Tree) {
    forall q {:trigger EntryCopied(t, src, dst, r, q)} :: EntryCopied(t, src, dst, r, q)
  }

  /** The tree with the subtree at src copied to dst, whatever was at dst being replaced. */
  ghost function Copied(t: Tree, src: Path, dst: Path): (r: Tree)
    ensures IsCopied(t, src, dst, r)
  {
    CopiedExists(t, src, dst);
    var r :| IsCopied(t, src, dst, r);
    r
  }

  lemma CopiedExists(t: Tree, src: Path, dst: Path)
    ensures exists r :: IsCopied(t, src, dst, r)
  {
    var sources := t.Keys + (set q | q in t && src <= q :: Source(dst, src, q));
    var r := map q | q in sources && Source(src, dst, q) in t :: t[Source(src, dst, q)];
    forall q ensures EntryCopied(t, src, dst, r, q) {
      if dst <= q {
        SourceBack(dst, src, q);
      }
    }
    assert IsCopied(t, src, dst, r);
  }

  ghost function Changed(u: Tree, c: Change): Tree {
    match c
    case Nothing => u
    case Put(p, node) => u[p := node]
    case Remove(p) => Without(u, p)
    case Relocate(src, dst) => Moved(u, src, dst)
    case Duplicate(src, dst) => Copied(u, src, dst)
    case Replace(s) => if INDEX in u then s[INDEX := u[INDEX]] else s
  }

  ghost predicate SameBelow(t: Tree, src: Path, staged: Path, q: Path) {
    staged <= q ==>
      (q in t <==> Source(src, staged, q) in t) && (q in t ==> t[q] == t[Source(src, staged, q)])
  }

  /** The staged entries and the moves that carry out a change. */
  ghost predicate StagedFor(t: Tree, c: Change, moves: seq<Move>) {
    match c
    case Nothing => moves == []
    case Put(p, node) =>
      && Installable(t, p in t, STAGED, p) && moves == Install(p in t, STAGED, p)
      && t[STAGED] == node && IsLeaf(t, STAGED) && (p in t ==> t[p].File?)
    case Remove(p) =>
      p in t && StoredPath(p) && p != [] && IsDir(t, TX) && OLD !in t && moves == [Move(p, OLD)]
    case Relocate(src, dst) =>
      && StoredPath(src) && src != []
      && Installable(t, dst in t, src, dst) && moves == Install(dst in t, src, dst)
    case Duplicate(src, dst) =>
      && StoredPath(src) && src != [] && !(src <= dst) && !(dst <= src)
      && Installable(t, dst in t, STAGED, dst) && moves == Install(dst in t, STAGED, dst)
      && (forall q {:trigger SameBelow(t, src, STAGED, q)} :: SameBelow(t, src, STAGED, q))
    case Replace(s) => (exists n :: Swapping(t, s, moves, n)) && INDEX !in s && (INDEX in t ==> t[INDEX].File?)
  }

  lemma ControlIrrelevant(t: Tree, metas: seq<Meta>, moves: seq<Move>, q: Path)
    requires q != TX_INDEX && q != JOURNAL
    ensures AgreeAt(WithControl(t, metas, moves), t, q)
  {
  }

  lemma WithControlClosed(t: Tree, pre: Tree, metas: seq<Meta>, moves: seq<Move>)
    requires Staging(t, pre)
    ensures Closed(WithControl(t, metas, moves))
  {
    ControlPaths();
    AddedClosed(t, TX_INDEX, File(Index(metas)));
    AddedClosed(t[TX_INDEX := File(Index(metas))], JOURNAL, File(Journal(moves)));
  }

  lemma InstallableWithControl(t: Tree, pre: Tree, metas: seq<Meta>, moves: seq<Move>, replace: bool, source: Path,
      dst: Path)
    requires Staging(t, pre) && Installable(t, replace, source, dst)
    ensures Installable(WithControl(t, metas, moves), replace, source, dst)
  {
    WithControlClosed(t, pre, metas, moves);
    StagingPaths();
    UserPath(dst);
    assert OLD != TX_INDEX && OLD != JOURNAL by { assert Spares([Move(STAGED, OLD)][0], TX_INDEX); }
    assert TX <= TX_INDEX && TX <= JOURNAL;
    assert !(TX <= Parent(dst)) by { assert Parent(dst) <= dst; }
  }

  lemma UserSource(source: Path, dst: Path, q: Path)
    requires !(TX <= q) && StoredPath(dst) && dst != [] && StoredPath(source) && source != []
    ensures !(TX <= Source(source, dst, q))
  {
    UserPath(source);
    if dst <= q && TX <= Source(source, dst, q) {
      PrefixesNest(source, TX, Source(source, dst, q));
    }
  }

  /** Outside the transaction directory nothing has changed yet when the journal is published. */
  lemma UserUnchanged(t: Tree, pre: Tree, metas: seq<Meta>, moves: seq<Move>, q: Path)
    requires Staging(t, pre) && !(TX <= q)
    ensures AgreeAt(WithControl(t, metas, moves), pre, q) && AgreeAt(t, pre, q)
  {
    assert TX <= TX_INDEX && TX <= JOURNAL;
  }

  lemma StagedUnchanged(t: Tree, metas: seq<Meta>, moves: seq<Move>, q: Path)
    requires STAGED <= q
    ensures AgreeAt(WithControl(t, metas, moves), t, q)
  {
    StagingPaths();
    assert Spares([Move(STAGED, OLD)][0], TX_INDEX) && Spares([Move(STAGED, OLD)][0], JOURNAL);
    ControlIrrelevant(t, metas, moves, q);
  }

  lemma NotStaging(q: Path)
    requires !(TX <= q)
    ensures !(STAGED <= q) && !(OLD <= q)
  {
    assert TX <= STAGED && TX <= OLD;
  }

  lemma PutRun(t: Tree, pre: Tree, metas: seq<Meta>, moves: seq<Move>, p: Path, node: Node, q: Path)
    requires Staging(t, pre) && StagedFor(t, Put(p, node), moves) && !(TX <= q)
    ensures AgreeAt(After(WithControl(t, metas, moves), moves, |moves|), pre[p := node], q)
  {
    hide TX, INDEX, STAGED, OLD, JOURNAL, TX_INDEX, StoredName, StoredPath, IsInternalPath;
    var s := Source(STAGED, p, q);
    InstallableWithControl(t, pre, metas, moves, p in t, STAGED, p);
    InstalledAt(WithControl(t, metas, moves), p in t, STAGED, p, q);
    UserUnchanged(t, pre, metas, moves, q);
    NotStaging(q);
    if p <= q {
      assert STAGED <= s && (p == q ==> s == STAGED);
      StagedUnchanged(t, metas, moves, s);
      if p != q { NothingBelowPut(t, p, q, s); }
    }
  }

  lemma NothingBelowPut(t: Tree, p: Path, q: Path, s: Path)
    requires Closed(t) && IsLeaf(t, STAGED) && (p in t ==> t[p].File?)
    requires p <= q && p != q && s == Source(STAGED, p, q)
    ensures q !in t && s !in t
  {
    if p in t { if q in t { FileIsLeaf(t, p, q); } } else { NothingBelow(t, p, q); }
    assert |s| > |STAGED|;
  }

  lemma RemoveRun(t: Tree, pre: Tree, metas: seq<Meta>, moves: seq<Move>, p: Path, q: Path)
    requires Staging(t, pre) && StagedFor(t, Remove(p), moves) && !(TX <= q)
    ensures AgreeAt(After(WithControl(t, metas, moves), moves, |moves|), Without(pre, p), q)
  {
    hide TX, INDEX, STAGED, OLD, JOURNAL, TX_INDEX, StoredName, StoredPath, IsInternalPath;
    var t0 := WithControl(t, metas, moves);
    UserUnchanged(t, pre, metas, moves, q);
    NotStaging(q);
    OneMove(t0, moves);
    assert EntryMoved(t0, p, OLD, Moved(t0, p, OLD), q);
  }

  lemma OneMove(t: Tree, moves: seq<Move>)
    requires |moves| == 1
    ensures After(t, moves, 1) == Moved(t, moves[0].from, moves[0].to)
  {
    assert After(t, moves, 0) == t;
  }

  lemma RelocateRun(t: Tree, pre: Tree, metas: seq<Meta>, moves: seq<Move>, src: Path, dst: Path, q: Path)
    requires Staging(t, pre) && StagedFor(t, Relocate(src, dst), moves) && !(TX <= q)
    ensures AgreeAt(After(WithControl(t, metas, moves), moves, |moves|), Moved(pre, src, dst), q)
  {
    hide TX, INDEX, STAGED, OLD, JOURNAL, TX_INDEX, StoredName, StoredPath, IsInternalPath;
    InstallableWithControl(t, pre, metas, moves, dst in t, src, dst);
    InstalledAt(WithControl(t, metas, moves), dst in t, src, dst, q);
    UserSource(src, dst, q);
    UserUnchanged(t, pre, metas, moves, Source(src, dst, q));
    assert EntryMoved(pre, src, dst, Moved(pre, src, dst), q);
  }

  lemma DuplicateRun(t: Tree, pre: Tree, metas: seq<Meta>, moves: seq<Move>, src: Path, dst: Path, q: Path)
    requires Staging(t, pre) && StagedFor(t, Duplicate(src, dst), moves) && !(TX <= q)
    ensures AgreeAt(After(WithControl(t, metas, moves), moves, |moves|), Copied(pre, src, dst), q)
  {
    hide TX, INDEX, STAGED, OLD, JOURNAL, TX_INDEX, StoredName, StoredPath, IsInternalPath;
    var s := Source(STAGED, dst, q);
    InstallableWithControl(t, pre, metas, moves, dst in t, STAGED, dst);
    InstalledAt(WithControl(t, metas, moves), dst in t, STAGED, dst, q);
    NotStaging(q);
    UserSource(src, dst, q);
    UserUnchanged(t, pre, metas, moves, Source(src, dst, q));
    assert EntryCopied(pre, src, dst, Copied(pre, src, dst), q);
    if dst <= q {
      assert STAGED <= s && s[|STAGED|..] == q[|dst|..];
      StagedUnchanged(t, metas, moves, s);
      assert SameBelow(t, src, STAGED, s);
    }
  }

  lemma SwappingWithControl(t: Tree, pre: Tree, metas: seq<Meta>, moves: seq<Move>, s: Tree, n: nat)
    requires Staging(t, pre) && Swapping(t, s, moves, n)
    ensures Swapping(WithControl(t, metas, moves), s, moves, n)
  {
    ControlPaths();
    ControlNotOld();
    WithControlClosed(t, pre, metas, moves);
    AddedClosed(t, TX_INDEX, File(Index(metas)));
    SwappingWithFile(t, s, moves, n, TX_INDEX, File(Index(metas)));
    SwappingWithFile(t[TX_INDEX := File(Index(metas))], s, moves, n, JOURNAL, File(Journal(moves)));
  }

  lemma ReplaceRun(t: Tree, pre: Tree, metas: seq<Meta>, moves: seq<Move>, s: Tree, q: Path)
    requires Staging(t, pre) && StagedFor(t, Replace(s), moves) && !(TX <= q)
    ensures AgreeAt(After(WithControl(t, metas, moves), moves, |moves|), Changed(pre, Replace(s)), q)
  {
    var n :| Swapping(t, s, moves, n);
    SwappingWithControl(t, pre, metas, moves, s, n);
    SwapRun(WithControl(t, metas, moves), s, moves, n, q);
    UserUnchanged(t, pre, metas, moves, q);
    UserUnchanged(t, pre, metas, moves, INDEX);
    if INDEX <= q && q != INDEX {
      NothingBelowIndex(t, s, q);
    }
  }

  lemma NothingBelowIndex(t: Tree, s: Tree, q: Path)
    requires Closed(t) && Closed(s) && INDEX !in s && (INDEX in t ==> t[INDEX].File?) && INDEX <= q && q != INDEX
    ensures q !in t && q !in s
  {
    NothingBelow(s, INDEX, q);
    if INDEX in t { if q in t { FileIsLeaf(t, INDEX, q); } } else { NothingBelow(t, INDEX, q); }
  }

  /** At every user path the run leaves what the change asks for. */
  lemma RunMatchesChange(t: Tree, pre: Tree, c: Change, metas: seq<Meta>, moves: seq<Move>, q: Path)
    requires Staging(t, pre) && StagedFor(t, c, moves) && !(TX <= q)
    ensures AgreeAt(After(WithControl(t, metas, moves), moves, |moves|), Changed(pre, c), q)
  {
    match c
    case Nothing =>
      UserUnchanged(t, pre, metas, moves, q);
      assert After(WithControl(t, metas, moves), moves, 0) == WithControl(t, metas, moves);
    case Put(p, node) => PutRun(t, pre, metas, moves, p, node, q);
    case Remove(p) => RemoveRun(t, pre, metas, moves, p, q);
    case Relocate(src, dst) => RelocateRun(t, pre, metas, moves, src, dst, q);
    case Duplicate(src, dst) => DuplicateRun(t, pre, metas, moves, src, dst, q);
    case Replace(s) => ReplaceRun(t, pre, metas, moves, s, q);
  }

  /** The committed tree is the tree before, changed, with the new index. */
  lemma CommittedIsChanged(t: Tree, pre: Tree, c: Change, metas: seq<Meta>, moves: seq<Move>)
    requires Staging(t, pre) && StagedFor(t, c, moves) && TX !in Changed(pre, c)
    requires Closed(Changed(pre, c))
    ensures CommittedTree(t, metas, moves) == Changed(pre, c)[INDEX := File(Index(metas))]
  {
    var l, r := CommittedTree(t, metas, moves), Changed(pre, c)[INDEX := File(Index(metas))];
    ControlPaths();
    forall q ensures AgreeAt(l, r, q) {
      if TX <= q {
        NothingBelow(Changed(pre, c), TX, q);
      } else {
        RunMatchesChange(t, pre, c, metas, moves, q);
      }
    }
    AgreeEverywhere(l, r);
  }
}
