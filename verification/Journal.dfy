/** The rename journal of a storage transaction: running it forwards, undoing it backwards from any
    prefix, and what survives when the transaction directory is removed in an arbitrary order. */
module Journal {
  import opened Paths
  import opened Disk

  const TX: Path := [".vfs-transaction"]
  const INDEX: Path := [".vfs_index.json"]
  const TX_INDEX: Path := [".vfs-transaction", "index"]
  const JOURNAL: Path := [".vfs-transaction", "journal"]
  const JOURNAL_NEW: Path := [".vfs-transaction", "journal.new"]
  const STAGED: Path := [".vfs-transaction", "new"]
  const OLD: Path := [".vfs-transaction", "old"]

  lemma ControlPaths()
    ensures Parent(TX_INDEX) == Parent(JOURNAL) == Parent(JOURNAL_NEW) == Parent(STAGED) == Parent(OLD) == TX
    ensures Parent(TX) == Parent(INDEX) == []
    ensures !(TX <= INDEX) && !(INDEX <= TX)
  {
    assert TX_INDEX[..1] == JOURNAL[..1] == JOURNAL_NEW[..1] == STAGED[..1] == OLD[..1] == TX;
    assert INDEX[0] != TX[0] by { assert |INDEX[0]| != |TX[0]|; }
  }

  /** The tree after the first k moves. */
  ghost function After(t: Tree, moves: seq<Move>, k: nat): Tree
    requires k <= |moves|
    decreases k
  {
    if k == 0 then t else Moved(After(t, moves, k - 1), moves[k - 1].from, moves[k - 1].to)
  }

  /** A move the backward scan of recovery reverses: its source is missing and its target is there. */
  predicate NeedsUndo(t: Tree, m: Move) {
    m.from !in t && m.to in t
  }

  ghost function UndoStep(t: Tree, m: Move): Tree {
    if NeedsUndo(t, m) then Moved(t, m.to, m.from) else t
  }

  /** The backward scan over moves[lo..n]. */
  ghost function Undo(t: Tree, moves: seq<Move>, lo: nat, n: nat): Tree
    requires lo <= n <= |moves|
    decreases n
  {
    if lo == n then t else Undo(UndoStep(t, moves[n - 1]), moves, lo, n - 1)
  }

  ghost predicate FreeAt(t: Tree, moves: seq<Move>, i: nat)
    requires i < |moves|
  {
    Free(After(t, moves, i), moves[i])
  }

  /** Each source exists from the start, none lies at or below an earlier one, and each move runs onto a
      path that is free by then. */
  ghost predicate Plan(t: Tree, moves: seq<Move>) {
    && Closed(t)
    && (forall i :: 0 <= i < |moves| ==> moves[i].from in t)
    && (forall i, j :: 0 <= i < j < |moves| ==> !(moves[i].from <= moves[j].from))
    && (forall i {:trigger FreeAt(t, moves, i)} :: 0 <= i < |moves| ==> FreeAt(t, moves, i))
  }

  lemma ClosedStep(t: Tree, moves: seq<Move>, k: nat)
    requires Plan(t, moves) && k < |moves| && Closed(After(t, moves, k))
    ensures Closed(After(t, moves, k + 1))
  {
    assert FreeAt(t, moves, k);
    var p, m := After(t, moves, k), moves[k];
    assert After(t, moves, k + 1) == Moved(p, m.from, m.to);
    TargetNotAbove(p, m.from, m.to);
    MovedClosed(p, m.from, m.to);
  }

  lemma {:induction false} AfterClosed(t: Tree, moves: seq<Move>, k: nat)
    requires Plan(t, moves) && k <= |moves|
    ensures Closed(After(t, moves, k))
    decreases k
  {
    if k == 0 {
      assert After(t, moves, 0) == t;
    } else {
      var j: nat := k - 1;
      AfterClosed(t, moves, j);
      ClosedStep(t, moves, j);
    }
  }

  lemma SourceWaitsStep(t: Tree, moves: seq<Move>, k: nat, i: nat)
    requires Plan(t, moves) && k < i < |moves| && moves[i].from in After(t, moves, k)
    ensures moves[i].from in After(t, moves, k + 1)
  {
    AfterClosed(t, moves, k);
    assert FreeAt(t, moves, k);
    var p, m := After(t, moves, k), moves[k];
    assert After(t, moves, k + 1) == Moved(p, m.from, m.to);
    OthersStay(p, m, moves[i].from);
  }

  /** A source is still in place while its own move has not run. */
  lemma {:induction false} SourceWaits(t: Tree, moves: seq<Move>, k: nat, i: nat)
    requires Plan(t, moves) && k <= i < |moves|
    ensures moves[i].from in After(t, moves, k)
    decreases k
  {
    if k == 0 {
      assert After(t, moves, 0) == t;
    } else {
      var j: nat := k - 1;
      SourceWaits(t, moves, j, i);
      SourceWaitsStep(t, moves, j, i);
    }
  }

  /** The scan leaves alone a move that has not run. */
  lemma UndoSkips(t: Tree, moves: seq<Move>, k: nat, i: nat)
    requires Plan(t, moves) && k <= i < |moves|
    ensures UndoStep(After(t, moves, k), moves[i]) == After(t, moves, k)
  {
    SourceWaits(t, moves, k, i);
  }

  /** The scan reverses the last move that has run. */
  lemma UndoReverses(t: Tree, moves: seq<Move>, i: nat)
    requires Plan(t, moves) && i < |moves|
    ensures NeedsUndo(After(t, moves, i + 1), moves[i])
    ensures Free(After(t, moves, i + 1), Move(moves[i].to, moves[i].from))
    ensures UndoStep(After(t, moves, i + 1), moves[i]) == After(t, moves, i)
  {
    AfterClosed(t, moves, i);
    assert FreeAt(t, moves, i);
    var p, m := After(t, moves, i), moves[i];
    var q := After(t, moves, i + 1);
    assert q == Moved(p, m.from, m.to);
    CanRenameBack(p, m);
    RenameBack(p, m);
    TargetNotAbove(p, m.from, m.to);
    MovedClosed(p, m.from, m.to);
  }

  /** Rollback is a left inverse from every prefix, and wherever the scan is interrupted it leaves the
      tree of a shorter prefix, from which it can start again. */
  lemma {:induction false} RollbackFromEveryPrefix(t: Tree, moves: seq<Move>, k: nat, lo: nat, n: nat)
    requires Plan(t, moves) && k <= n <= |moves| && lo <= n
    ensures Undo(After(t, moves, k), moves, lo, n) == After(t, moves, Min(k, lo))
    decreases n
  {
    if lo < n {
      var i: nat := n - 1;
      var a := After(t, moves, k);
      if k == n {
        UndoReverses(t, moves, i);
        RollbackFromEveryPrefix(t, moves, i, lo, i);
      } else {
        UndoSkips(t, moves, k, i);
        RollbackFromEveryPrefix(t, moves, k, lo, i);
      }
      assert Undo(a, moves, lo, n) == Undo(UndoStep(a, moves[i]), moves, lo, i);
    }
  }

  // ----- When rollback works -----

  /** Each move runs onto a path that is free by then, and each source exists from the start. */
  ghost predicate Runs(t: Tree, moves: seq<Move>) {
    && Closed(t)
    && (forall i :: 0 <= i < |moves| ==> moves[i].from in t)
    && (forall i {:trigger FreeAt(t, moves, i)} :: 0 <= i < |moves| ==> FreeAt(t, moves, i))
  }

  /** After k moves the scan takes move i, which has not run, for one that has. */
  ghost predicate Mistaken(t: Tree, moves: seq<Move>, k: nat, i: nat)
    requires i < |moves|
  {
    k <= i && NeedsUndo(After(t, moves, k), moves[i])
  }

  /** From k moves on, the scan down to lo restores the tree of the shorter prefix. */
  ghost predicate Undone(t: Tree, moves: seq<Move>, k: nat, lo: nat)
    requires k <= |moves| && lo <= |moves|
  {
    Undo(After(t, moves, k), moves, lo, |moves|) == After(t, moves, Min(k, lo))
  }

  lemma {:induction false} RunsClosed(t: Tree, moves: seq<Move>, k: nat)
    requires Runs(t, moves) && k <= |moves|
    ensures Closed(After(t, moves, k))
    decreases k
  {
    if k == 0 {
      assert After(t, moves, 0) == t;
    } else {
      var j: nat := k - 1;
      RunsClosed(t, moves, j);
      assert FreeAt(t, moves, j);
      var p, m := After(t, moves, j), moves[j];
      TargetNotAbove(p, m.from, m.to);
      MovedClosed(p, m.from, m.to);
    }
  }

  lemma RunReversed(t: Tree, moves: seq<Move>, i: nat)
    requires Runs(t, moves) && i < |moves|
    ensures UndoStep(After(t, moves, i + 1), moves[i]) == After(t, moves, i)
  {
    RunsClosed(t, moves, i);
    assert FreeAt(t, moves, i);
    var p, m := After(t, moves, i), moves[i];
    assert After(t, moves, i + 1) == Moved(p, m.from, m.to);
    CanRenameBack(p, m);
    RenameBack(p, m);
  }

  lemma {:induction false} UnmistakenRestores(t: Tree, moves: seq<Move>, k: nat, lo: nat, n: nat)
    requires Runs(t, moves) && k <= n <= |moves| && lo <= n
    requires forall j, i :: 0 <= j <= i < |moves| ==> !Mistaken(t, moves, j, i)
    ensures Undo(After(t, moves, k), moves, lo, n) == After(t, moves, Min(k, lo))
    decreases n
  {
    if lo < n {
      var i: nat := n - 1;
      if k == n {
        RunReversed(t, moves, i);
        UnmistakenRestores(t, moves, i, lo, i);
      } else {
        assert !Mistaken(t, moves, k, i);
        UnmistakenRestores(t, moves, k, lo, i);
      }
    }
  }

  lemma {:induction false} LastMistake(t: Tree, moves: seq<Move>, k: nat, i: nat) returns (j: nat)
    requires i < |moves| && Mistaken(t, moves, k, i)
    ensures i <= j < |moves| && Mistaken(t, moves, k, j)
    ensures forall x :: j < x < |moves| ==> !NeedsUndo(After(t, moves, k), moves[x])
    decreases |moves| - i
  {
    j := i;
    if x: nat :| i < x < |moves| && NeedsUndo(After(t, moves, k), moves[x]) {
      j := LastMistake(t, moves, k, x);
    }
  }

  lemma MistakeShows(t: Tree, moves: seq<Move>, k: nat, i: nat)
    requires Runs(t, moves) && k <= i < |moves| && Mistaken(t, moves, k, i)
    ensures exists lo :: 0 <= lo <= |moves| && !Undone(t, moves, k, lo)
  {
    var j := LastMistake(t, moves, k, i);
    var a, m, n := After(t, moves, k), moves[j], |moves|;
    IdleBelow(a, moves, j + 1, n);
    UndoSplit(a, moves, j, j + 1, n);
    assert Undo(a, moves, j, n) == Undo(a, moves, j, j + 1) == UndoStep(a, m) == Moved(a, m.to, m.from);
    assert EntryMoved(a, m.to, m.from, Moved(a, m.to, m.from), m.from);
    assert Source(m.to, m.from, m.from) == m.to;
    assert m.from in Moved(a, m.to, m.from) && m.from !in a;
    assert Min(k, j) == k;
    assert !Undone(t, moves, k, j);
  }

  /** A list that can be run is undone from every prefix, wherever the scan is interrupted, if and only if
      after no prefix a move that has not run misses its source while its target is there. */
  lemma RollbackIff(t: Tree, moves: seq<Move>)
    requires Runs(t, moves)
    ensures (forall k, lo :: 0 <= k <= |moves| && 0 <= lo <= |moves| ==> Undone(t, moves, k, lo)) <==>
            (forall k, i :: 0 <= k <= i < |moves| ==> !Mistaken(t, moves, k, i))
  {
    if forall k, i :: 0 <= k <= i < |moves| ==> !Mistaken(t, moves, k, i) {
      forall k, lo | 0 <= k <= |moves| && 0 <= lo <= |moves| ensures Undone(t, moves, k, lo) {
        UnmistakenRestores(t, moves, k, lo, |moves|);
      }
    } else {
      var k, i :| 0 <= k <= i < |moves| && Mistaken(t, moves, k, i);
      MistakeShows(t, moves, k, i);
    }
  }

  /** A plan makes no such mistake. */
  lemma PlanUnmistaken(t: Tree, moves: seq<Move>, k: nat, i: nat)
    requires Plan(t, moves) && k <= i < |moves|
    ensures Runs(t, moves) && !Mistaken(t, moves, k, i)
  {
    SourceWaits(t, moves, k, i);
  }

  /** Directories at the top and one level below. */
  ghost predicate Shallow(t: Tree, tops: set<string>, below: set<(string, string)>) {
    && (forall q :: q in t <==> q == [] || (|q| == 1 && q[0] in tops) || (|q| == 2 && (q[0], q[1]) in below))
    && (forall q :: q in t ==> t[q] == Dir)
  }

  function NestedMoves(a: string, c: string, y: string, b: string, x: string, z: string): seq<Move> {
    [Move([a], [x]), Move([y], [z]), Move([c], [a]), Move([a, b], [y])]
  }

  /** Existing sources and free targets are not enough. In a tree of /a/b, /c/b and /y, one move into this list,
      recovery takes the last move for one that has run. */
  lemma NestedSourcesFail(t: Tree, a: string, c: string, y: string, b: string, x: string, z: string)
    requires a != c && a != y && c != y && a != x && c != x && y != x && a != z && c != z && y != z && x != z
    requires Shallow(t, {a, c, y}, {(a, b), (c, b)})
    ensures
      var moves := NestedMoves(a, c, y, b, x, z);
      Runs(t, moves) && Mistaken(t, moves, 1, 3) && exists lo :: 0 <= lo <= 4 && !Undone(t, moves, 1, lo)
  {
    hide Free, Closed, Mistaken, Undone;
    var moves := NestedMoves(a, c, y, b, x, z);
    var t1 := Moved(t, [a], [x]);
    var t2 := Moved(t1, [y], [z]);
    var t3 := Moved(t2, [c], [a]);
    TopRenamed(t, {a, c, y}, {(a, b), (c, b)}, a, x, {x, c, y}, {(x, b), (c, b)});
    TopRenamed(t1, {x, c, y}, {(x, b), (c, b)}, y, z, {x, c, z}, {(x, b), (c, b)});
    TopRenamed(t2, {x, c, z}, {(x, b), (c, b)}, c, a, {x, a, z}, {(x, b), (a, b)});
    TopFree(t, {a, c, y}, {(a, b), (c, b)}, Move([a], [x]));
    TopFree(t1, {x, c, y}, {(x, b), (c, b)}, Move([y], [z]));
    TopFree(t2, {x, c, z}, {(x, b), (c, b)}, Move([c], [a]));
    TopFree(t3, {x, a, z}, {(x, b), (a, b)}, Move([a, b], [y]));
    ShallowClosed(t, {a, c, y}, {(a, b), (c, b)});
    NestedRun(t, moves, t1, t2, t3);
    MistakeShows(t, moves, 1, 3);
  }

  const NESTED: Tree := map[[] := Dir, ["a"] := Dir, ["a", "b"] := Dir, ["y"] := Dir, ["c"] := Dir, ["c", "b"] := Dir]

  lemma NestedSourcesFailHere()
    ensures
      var moves := NestedMoves("a", "c", "y", "b", "x", "z");
      Runs(NESTED, moves) && Mistaken(NESTED, moves, 1, 3) && exists lo :: 0 <= lo <= 4 && !Undone(NESTED, moves, 1, lo)
  {
    var tops, below := {"a", "c", "y"}, {("a", "b"), ("c", "b")};
    forall q ensures q in NESTED <==> q == [] || (|q| == 1 && q[0] in tops) || (|q| == 2 && (q[0], q[1]) in below) {
      if |q| == 1 { assert q == [q[0]]; }
      if |q| == 2 { assert q == [q[0], q[1]]; }
    }
    assert "a"[0] == 'a' && "c"[0] == 'c' && "y"[0] == 'y' && "x"[0] == 'x' && "z"[0] == 'z';
    NestedSourcesFail(NESTED, "a", "c", "y", "b", "x", "z");
  }

  lemma NestedRun(t: Tree, moves: seq<Move>, t1: Tree, t2: Tree, t3: Tree)
    requires |moves| == 4 && Closed(t) && forall i :: 0 <= i < 4 ==> moves[i].from in t
    requires t1 == Moved(t, moves[0].from, moves[0].to) && Free(t, moves[0])
    requires t2 == Moved(t1, moves[1].from, moves[1].to) && Free(t1, moves[1])
    requires t3 == Moved(t2, moves[2].from, moves[2].to) && Free(t2, moves[2]) && Free(t3, moves[3])
    requires NeedsUndo(t1, moves[3])
    ensures Runs(t, moves) && Mistaken(t, moves, 1, 3)
  {
    assert After(t, moves, 0) == t && After(t, moves, 1) == t1 && After(t, moves, 2) == t2 && After(t, moves, 3) == t3;
    forall i | 0 <= i < 4 ensures FreeAt(t, moves, i) {
      assert i == 0 || i == 1 || i == 2 || i == 3;
    }
  }

  lemma TopFree(t: Tree, tops: set<string>, below: set<(string, string)>, m: Move)
    requires Shallow(t, tops, below) && m.from in t && m.from != [] && |m.to| == 1 && m.to[0] !in tops
    ensures Free(t, m)
  {
    assert Parent(m.to) == [];
    assert m.from <= m.to ==> m.from == m.to;
  }

  lemma ShallowClosed(t: Tree, tops: set<string>, below: set<(string, string)>)
    requires Shallow(t, tops, below) && forall s, u :: (s, u) in below ==> s in tops
    ensures Closed(t)
  {
    forall q ensures HasParent(t, q) { }
  }

  lemma TopRenamed(t: Tree, tops: set<string>, below: set<(string, string)>, from: string, to: string,
      tops': set<string>, below': set<(string, string)>)
    requires Shallow(t, tops, below) && from != to && from in tops && to !in tops
    requires forall s :: s in tops' <==> s == to || (s in tops && s != from)
    requires forall s, u :: (s, u) in below' <==> if s == to then (from, u) in below else s != from && (s, u) in below
    ensures Shallow(Moved(t, [from], [to]), tops', below')
  {
    var r := Moved(t, [from], [to]);
    forall q ensures (q in r <==> q == [] || (|q| == 1 && q[0] in tops') || (|q| == 2 && (q[0], q[1]) in below')) && (q in r ==> r[q] == Dir) {
      assert EntryMoved(t, [from], [to], r, q);
      assert [to] <= q <==> q != [] && q[0] == to;
      assert [from] <= q <==> q != [] && q[0] == from;
      var s := Source([from], [to], q);
      if q != [] && q[0] == to { assert s == [from] + q[1..]; }
    }
  }

  // ----- The user's part of the tree -----

  /** Everything outside the transaction directory. */
  function User(t: Tree): (u: Tree)
    ensures forall q :: q in u <==> q in t && !(TX <= q)
    ensures forall q :: q in u ==> u[q] == t[q]
  {
    t - (set q | q in t && TX <= q)
  }

  /** What recoverTransaction makes of a tree when it completes. */
  ghost function Recovered(t: Tree): Tree {
    if JOURNAL in t && TX_INDEX in t && IsJournal(t) then
      User(Undo(t, JournalOf(t), 0, |JournalOf(t)|))
    else User(t)
  }

  predicate IsJournal(t: Tree) {
    JOURNAL in t && t[JOURNAL].File? && t[JOURNAL].content.Journal?
  }

  function JournalOf(t: Tree): seq<Move>
    requires IsJournal(t)
  {
    t[JOURNAL].content.moves
  }

  // ----- Removing the transaction directory in an arbitrary order -----

  /** t' is t with some of the transaction directory already removed, children before parents. */
  ghost predicate PartlyCleaned(t: Tree, t': Tree) {
    && Closed(t')
    && (forall q :: q in t' ==> q in t && t'[q] == t[q])
    && (forall q :: q in t && !(TX <= q) ==> q in t')
  }

  /** No removal of staged entries can make the backward scan take this move for one that has run. */
  predicate Harmless(t: Tree, m: Move) {
    (m.from in t && !(TX <= m.from)) || m.to !in t
  }

  ghost predicate AllHarmless(t: Tree, moves: seq<Move>) {
    forall i :: 0 <= i < |moves| ==> Harmless(t, moves[i])
  }

  lemma {:induction false} HarmlessScanIsIdle(t: Tree, moves: seq<Move>, lo: nat, n: nat)
    requires AllHarmless(t, moves) && lo <= n <= |moves|
    ensures Undo(t, moves, lo, n) == t
    decreases n
  {
    if lo < n {
      assert Harmless(t, moves[n - 1]);
      HarmlessScanIsIdle(t, moves, lo, n - 1);
    }
  }

  lemma HarmlessWhileCleaning(t: Tree, t': Tree, moves: seq<Move>)
    requires AllHarmless(t, moves) && PartlyCleaned(t, t')
    ensures AllHarmless(t', moves)
  {
    forall i | 0 <= i < |moves| ensures Harmless(t', moves[i]) {
      assert Harmless(t, moves[i]);
    }
  }

  /** What the transaction body puts aside never lands below what it installs, and goes to paths of the
      transaction directory that are free at the start. */
  ghost predicate Evicts(t: Tree, moves: seq<Move>) {
    && (forall i, j :: 0 <= i < |moves| && 0 <= j < |moves| && i != j ==> !(moves[i].from <= moves[j].from))
    && (forall i :: 0 <= i < |moves| && TX <= moves[i].from ==>
          !(moves[i].from <= JOURNAL) && !(moves[i].from <= TX_INDEX) && !(TX <= moves[i].to))
    && (forall i, j :: 0 <= j < i < |moves| && TX <= moves[i].from && moves[i].to <= moves[j].from ==>
          TX <= moves[j].to && !(moves[i].from <= moves[j].to) && moves[j].to !in t)
  }

  /** The tree once the staged entry at p, and nothing else, has been removed. */
  function Without(t: Tree, p: Path): (r: Tree)
    ensures forall q :: q in r <==> q in t && !(p <= q)
    ensures forall q :: q in r ==> r[q] == t[q]
  {
    t - (set q | q in t && p <= q)
  }

  lemma WithoutIsPartlyCleaned(t: Tree, p: Path)
    requires Closed(t) && TX <= p
    ensures PartlyCleaned(t, Without(t, p))
  {
    forall q ensures HasParent(Without(t, p), q) {
      assert HasParent(t, q);
      assert q != [] ==> Parent(q) <= q;
    }
  }

  lemma {:induction false} IdleBelow(t: Tree, moves: seq<Move>, lo: nat, n: nat)
    requires lo <= n <= |moves|
    requires forall j :: lo <= j < n ==> !NeedsUndo(t, moves[j])
    ensures Undo(t, moves, lo, n) == t
    decreases n
  {
    if lo < n {
      IdleBelow(t, moves, lo, n - 1);
    }
  }

  lemma {:induction false} UndoSplit(t: Tree, moves: seq<Move>, lo: nat, mid: nat, n: nat)
    requires lo <= mid <= n <= |moves|
    ensures Undo(t, moves, lo, n) == Undo(Undo(t, moves, mid, n), moves, lo, mid)
    decreases n
  {
    if mid < n {
      UndoSplit(UndoStep(t, moves[n - 1]), moves, lo, mid, n - 1);
    }
  }

  /** The harm done by one unlucky removal: the entry that the install would have replaced is taken for
      the installed one and carried off into the transaction directory. */
  lemma UnluckyRemoval(t: Tree, moves: seq<Move>, i: nat)
    requires Plan(t, moves) && Evicts(t, moves) && i < |moves| && !Harmless(t, moves[i])
    ensures Undo(Without(t, moves[i].from), moves, 0, |moves|)
         == Moved(Without(t, moves[i].from), moves[i].to, moves[i].from)
    ensures moves[i].to !in Undo(Without(t, moves[i].from), moves, 0, |moves|)
  {
    var m, t' := moves[i], Without(t, moves[i].from);
    var t'' := Moved(t', m.to, m.from);
    forall j | i < j < |moves| ensures !NeedsUndo(t', moves[j]) {
      assert moves[j].from in t';
    }
    IdleBelow(t', moves, i + 1, |moves|);
    UndoSplit(t', moves, 0, i + 1, |moves|);
    assert m.to in t' && m.from !in t';
    assert EntryMoved(t', m.to, m.from, t'', m.to);
    assert Undo(t', moves, 0, i + 1) == Undo(t'', moves, 0, i);
    forall j | 0 <= j < i ensures !NeedsUndo(t'', moves[j]) {
      if moves[j].from !in t'' {
        StrandedSource(t, moves, i, j);
      }
    }
    IdleBelow(t'', moves, 0, i);
  }

  lemma StrandedSource(t: Tree, moves: seq<Move>, i: nat, j: nat)
    requires Plan(t, moves) && Evicts(t, moves) && j < i < |moves| && !Harmless(t, moves[i])
    requires moves[j].from !in Moved(Without(t, moves[i].from), moves[i].to, moves[i].from)
    ensures moves[j].to !in Moved(Without(t, moves[i].from), moves[i].to, moves[i].from)
  {
    var m := moves[i];
    var t', t'' := Without(t, m.from), Moved(Without(t, m.from), m.to, m.from);
    assert EntryMoved(t', m.to, m.from, t'', moves[j].from);
    assert EntryMoved(t', m.to, m.from, t'', moves[j].to);
    assert moves[j].from in Without(t, m.from);
    assert !(m.from <= moves[j].from);
    assert m.to <= moves[j].from;
    assert Source(m.to, m.from, moves[j].to) == moves[j].to;
  }

  /** Removing the transaction directory of a rolled-back transaction in any order, and recovering again
      after being interrupted, keeps the user's entries exactly when every move is harmless. */
  lemma CleanupOrderIrrelevantIff(t: Tree, moves: seq<Move>)
    requires Plan(t, moves) && Evicts(t, moves) && IsJournal(t) && JournalOf(t) == moves && TX_INDEX in t
    ensures (forall t' :: PartlyCleaned(t, t') ==> Recovered(t') == User(t)) <==> AllHarmless(t, moves)
  {
    if AllHarmless(t, moves) {
      forall t' | PartlyCleaned(t, t') ensures Recovered(t') == User(t) {
        HarmlessWhileCleaning(t, t', moves);
        HarmlessScanIsIdle(t', moves, 0, |moves|);
        assert User(t') == User(t);
      }
    } else {
      var i :| 0 <= i < |moves| && !Harmless(t, moves[i]);
      var t' := Without(t, moves[i].from);
      WithoutIsPartlyCleaned(t, moves[i].from);
      UnluckyRemoval(t, moves, i);
      assert IsJournal(t') && JournalOf(t') == moves && TX_INDEX in t';
      assert moves[i].to in User(t) && moves[i].to !in Recovered(t');
    }
  }
}
