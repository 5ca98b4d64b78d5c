/** Crash recovery of the storage directory: which trees a transaction can leave behind, and the one
    state that recovery brings each of them to, however often recovery itself is interrupted. */
module Recovery {
  import opened Paths
  import opened Disk
  import opened Journal

  /** A path recovery accepts in a journal. */
  predicate IsInternalPath(p: Path) {
    p != [] && CleanPath(p) && forall i :: 0 <= i < |p| ==> !HasForbidden(p[i])
  }

  /** isInternalPath on components without slashes: not empty, left alone by path.Clean, and without a forbidden
      character. */
  lemma InternalPathIs(p: Path)
    requires forall i :: 0 <= i < |p| ==> '/' !in p[i]
    ensures IsInternalPath(p) <==> p != [] && Clean(p) == p && forall i :: 0 <= i < |p| ==> '\\' !in p[i] && '\0' !in p[i]
  {
    hide Clean;
    if CleanPath(p) { CleanKeeps(p); }
    if Clean(p) == p { CleanIsClean(p); }
  }

  ghost predicate AllInternal(moves: seq<Move>) {
    forall i :: 0 <= i < |moves| ==> IsInternalPath(moves[i].from) && IsInternalPath(moves[i].to)
  }

  predicate Spares(m: Move, c: Path) {
    !(m.from <= c) && !(m.to <= c)
  }

  /** No move touches the transaction directory itself, its index and journal, or the committed index. */
  ghost predicate SparesControlFiles(moves: seq<Move>) {
    forall i :: 0 <= i < |moves| ==>
      Spares(moves[i], TX) && Spares(moves[i], JOURNAL) && Spares(moves[i], TX_INDEX) && Spares(moves[i], INDEX)
  }

  /** A journal is published and the first k of its moves have run. */
  ghost predicate Published(t: Tree, u: Tree, t0: Tree, moves: seq<Move>, k: nat) {
    && k <= |moves|
    && Plan(t0, moves) && AllInternal(moves) && SparesControlFiles(moves)
    && IsJournal(t0) && JournalOf(t0) == moves && TX_INDEX in t0
    && User(t0) == u
    && t == After(t0, moves, k)
  }

  /** Nothing is left for recovery to undo, even if entries of the transaction directory go missing. */
  ghost predicate Settled(t: Tree, u: Tree) {
    && Closed(t)
    && User(t) == u
    && (JOURNAL in t ==> IsJournal(t) && AllInternal(JournalOf(t)))
    && (JOURNAL in t && TX_INDEX in t ==> AllHarmless(t, JournalOf(t)))
  }

  /** Completed recovery turns t into u. With `atomic` the removal of the transaction directory counts as
      one step; without it the moves have to be harmless. */
  ghost predicate Recovers(t: Tree, u: Tree, atomic: bool) {
    || Settled(t, u)
    || exists t0, moves, k :: Published(t, u, t0, moves, k) && (atomic || AllHarmless(t0, moves))
  }

  lemma SparedStays(t: Tree, m: Move, c: Path)
    requires Closed(t) && Free(t, m) && Spares(m, c)
    ensures AgreeAt(Moved(t, m.from, m.to), t, c)
  {
    assert EntryMoved(t, m.from, m.to, Moved(t, m.from, m.to), c);
  }

  /** Paths spared by every move look the same after any number of them. */
  lemma {:induction false} SparedAfter(t: Tree, moves: seq<Move>, k: nat, c: Path)
    requires Plan(t, moves) && k <= |moves|
    requires forall i :: 0 <= i < |moves| ==> Spares(moves[i], c)
    ensures AgreeAt(After(t, moves, k), t, c)
    decreases k
  {
    if k == 0 {
      assert After(t, moves, 0) == t;
    } else {
      var j: nat := k - 1;
      SparedAfter(t, moves, j, c);
      AfterClosed(t, moves, j);
      assert FreeAt(t, moves, j);
      SparedStays(After(t, moves, j), moves[j], c);
    }
  }

  lemma JournalStays(t: Tree, u: Tree, t0: Tree, moves: seq<Move>, k: nat)
    requires Published(t, u, t0, moves, k)
    ensures Closed(t) && IsJournal(t) && JournalOf(t) == moves && TX_INDEX in t
  {
    AfterClosed(t0, moves, k);
    SparedAfter(t0, moves, k, JOURNAL);
    SparedAfter(t0, moves, k, TX_INDEX);
  }

  lemma SettledWhileCleaning(t: Tree, t': Tree, u: Tree)
    requires Settled(t, u) && PartlyCleaned(t, t')
    ensures Settled(t', u)
  {
    assert User(t') == User(t);
    if JOURNAL in t' && TX_INDEX in t' {
      HarmlessWhileCleaning(t, t', JournalOf(t));
    }
  }

  /** The state recovery leads to is unique and computed by the backward scan. */
  lemma RecoversToOne(t: Tree, u: Tree, atomic: bool)
    requires Recovers(t, u, atomic)
    ensures Recovered(t) == u
  {
    if Settled(t, u) {
      if JOURNAL in t && TX_INDEX in t {
        HarmlessScanIsIdle(t, JournalOf(t), 0, |JournalOf(t)|);
      }
    } else {
      var t0, moves, k :| Published(t, u, t0, moves, k) && (atomic || AllHarmless(t0, moves));
      JournalStays(t, u, t0, moves, k);
      RollbackFromEveryPrefix(t0, moves, k, 0, |moves|);
      assert After(t0, moves, 0) == t0;
    }
  }

  /** Interrupting the backward scan anywhere leaves a tree from which recovery still leads to u. */
  lemma InterruptedScan(t: Tree, u: Tree, atomic: bool, lo: nat)
    requires Recovers(t, u, atomic) && IsJournal(t) && TX_INDEX in t && lo <= |JournalOf(t)|
    ensures Recovers(Undo(t, JournalOf(t), lo, |JournalOf(t)|), u, atomic)
  {
    var n := |JournalOf(t)|;
    if Settled(t, u) {
      HarmlessScanIsIdle(t, JournalOf(t), lo, n);
    } else {
      var t0, moves, k :| Published(t, u, t0, moves, k) && (atomic || AllHarmless(t0, moves));
      JournalStays(t, u, t0, moves, k);
      RollbackFromEveryPrefix(t0, moves, k, lo, n);
      assert Published(After(t0, moves, Min(k, lo)), u, t0, moves, Min(k, lo));
    }
  }

  lemma CleanedIsSettled(t: Tree, t': Tree)
    requires PartlyCleaned(t, t') && t' == User(t)
    ensures Settled(t', User(t))
  {
    assert User(t') == t';
  }

  lemma PublishedCleaning(t: Tree, t': Tree, u: Tree, moves: seq<Move>, atomic: bool)
    requires Published(t, u, t, moves, 0) && (atomic || AllHarmless(t, moves))
    requires PartlyCleaned(t, t') && (atomic ==> t' == t || t' == User(t))
    ensures Recovers(t', u, atomic)
  {
    if t' == User(t) {
      CleanedIsSettled(t, t');
    } else if !atomic {
      SettledWhileCleaning(t, t', u);
    }
  }

  /** The transaction directory may be removed once the scan is complete: in one step if that is atomic,
      and otherwise piece by piece, with a crash after any piece. */
  lemma CleaningKeepsOutcome(t: Tree, t': Tree, u: Tree, atomic: bool)
    requires Recovers(t, u, atomic)
    requires PartlyCleaned(t, t') && (atomic ==> t' == t || t' == User(t))
    requires IsJournal(t) && TX_INDEX in t ==> Undo(t, JournalOf(t), 0, |JournalOf(t)|) == t
    ensures Recovers(t', u, atomic)
  {
    if Settled(t, u) {
      SettledWhileCleaning(t, t', u);
    } else {
      var t0, moves, k :| Published(t, u, t0, moves, k) && (atomic || AllHarmless(t0, moves));
      JournalStays(t, u, t0, moves, k);
      ScannedIsStart(t, u, t0, moves, k);
      PublishedCleaning(t, t', u, moves, atomic);
    }
  }

  lemma ScannedIsStart(t: Tree, u: Tree, t0: Tree, moves: seq<Move>, k: nat)
    requires Published(t, u, t0, moves, k) && Undo(t, moves, 0, |moves|) == t
    ensures t == t0 && Published(t, u, t, moves, 0)
  {
    RollbackFromEveryPrefix(t0, moves, k, 0, |moves|);
    assert After(t0, moves, 0) == t0;
  }
}
