/** A condition on a list of moves that can be read off the tree before any of them runs, and that every
    list the driver journals meets. It makes the list a plan that recovery can undo from every prefix. */
module Plans {
  import opened Paths
  import opened Disk
  import opened Journal
  import opened Recovery

  predicate MoveReady(t: Tree, m: Move) {
    m.from != [] && m.to != [] && m.from in t && IsDir(t, Parent(m.to))
  }

  /** Moves i and j do not get in each other's way. */
  predicate Unnested(a: Move, b: Move) {
    !(a.from <= b.from) && !(a.to <= b.to)
  }

  predicate KeepsParent(a: Move, b: Move) {
    b.to != [] ==> !(a.from <= Parent(b.to))
  }

  /** A target that is taken is put aside by an earlier move. */
  predicate FreedBefore(t: Tree, moves: seq<Move>, i: nat)
    requires i < |moves|
  {
    moves[i].to in t ==> exists j :: 0 <= j < i && moves[j].from == moves[i].to
  }

  ghost predicate Static(t: Tree, moves: seq<Move>) {
    && Closed(t)
    && (forall i :: 0 <= i < |moves| ==> MoveReady(t, moves[i]))
    && (forall i, j {:trigger Unnested(moves[i], moves[j])} ::
          0 <= i < |moves| && 0 <= j < |moves| && i != j ==> Unnested(moves[i], moves[j]))
    && (forall i, j {:trigger KeepsParent(moves[i], moves[j])} ::
          0 <= i < |moves| && 0 <= j < |moves| ==> KeepsParent(moves[i], moves[j]))
    && (forall i :: 0 <= i < |moves| ==> FreedBefore(t, moves, i))
  }

  lemma {:induction false} Untouched(t: Tree, moves: seq<Move>, k: nat, q: Path)
    requires k <= |moves|
    requires forall j {:trigger moves[j]} :: 0 <= j < k ==> Spares(moves[j], q)
    ensures AgreeAt(After(t, moves, k), t, q)
    decreases k
  {
    if k == 0 {
      assert After(t, moves, 0) == t;
    } else {
      var j: nat := k - 1;
      Untouched(t, moves, j, q);
      assert Spares(moves[j], q);
      var a, m := After(t, moves, j), moves[j];
      assert EntryMoved(a, m.from, m.to, Moved(a, m.from, m.to), q);
    }
  }

  /** What has been moved away stays away unless something lands on it. */
  lemma {:induction false} GoneStays(t: Tree, moves: seq<Move>, j: nat, k: nat, q: Path)
    requires j < k <= |moves| && moves[j].from <= q
    requires forall i {:trigger moves[i]} :: j <= i < k ==> !(moves[i].to <= q)
    ensures q !in After(t, moves, k)
    decreases k
  {
    var i: nat := k - 1;
    var a, m := After(t, moves, i), moves[i];
    assert After(t, moves, k) == Moved(a, m.from, m.to);
    assert EntryMoved(a, m.from, m.to, Moved(a, m.from, m.to), q);
    if j < i {
      GoneStays(t, moves, j, i, q);
    }
  }

  /** Where a move has put something it stays, if no other move touches either place. */
  lemma {:induction false} Lands(t: Tree, moves: seq<Move>, i: nat, k: nat, q: Path)
    requires i < k <= |moves| && moves[i].to <= q
    requires forall j {:trigger moves[j]} :: 0 <= j < i ==> Spares(moves[j], Source(moves[i].from, moves[i].to, q))
    requires forall j {:trigger moves[j]} :: i < j < k ==> Spares(moves[j], q)
    ensures
      var a, s := After(t, moves, k), Source(moves[i].from, moves[i].to, q);
      (q in a <==> s in t) && (q in a ==> a[q] == t[s])
    decreases k
  {
    var j: nat := k - 1;
    var a, m := After(t, moves, j), moves[j];
    assert After(t, moves, k) == Moved(a, m.from, m.to);
    assert EntryMoved(a, m.from, m.to, Moved(a, m.from, m.to), q);
    if i == j {
      Untouched(t, moves, i, Source(m.from, m.to, q));
    } else {
      Lands(t, moves, i, j, q);
      assert Spares(moves[j], q);
    }
  }

  lemma TargetSparesSource(t: Tree, moves: seq<Move>, j: nat, i: nat)
    requires Static(t, moves) && j < i < |moves|
    ensures !(moves[j].to <= moves[i].from)
  {
    assert MoveReady(t, moves[i]) && FreedBefore(t, moves, j);
    if moves[j].to !in t {
      if moves[j].to <= moves[i].from { NothingBelow(t, moves[j].to, moves[i].from); }
    } else {
      var e :| 0 <= e < j && moves[e].from == moves[j].to;
      assert Unnested(moves[e], moves[i]);
    }
  }

  lemma SpareParent(t: Tree, moves: seq<Move>, j: nat, i: nat)
    requires Static(t, moves) && j < |moves| && i < |moves| && i != j
    ensures Spares(moves[j], Parent(moves[i].to))
  {
    assert MoveReady(t, moves[i]);
    assert KeepsParent(moves[j], moves[i]) && Unnested(moves[j], moves[i]);
    assert Parent(moves[i].to) <= moves[i].to;
  }

  lemma TargetFree(t: Tree, moves: seq<Move>, i: nat)
    requires Static(t, moves) && i < |moves|
    ensures moves[i].to !in After(t, moves, i)
  {
    var q := moves[i].to;
    assert FreedBefore(t, moves, i);
    if q in t {
      var e :| 0 <= e < i && moves[e].from == q;
      forall j | e <= j < i ensures !(moves[j].to <= q) {
        assert Unnested(moves[j], moves[i]);
      }
      GoneStays(t, moves, e, i, q);
    } else {
      forall j | 0 <= j < i ensures Spares(moves[j], q) {
        assert Unnested(moves[j], moves[i]) && MoveReady(t, moves[j]) && MoveReady(t, moves[i]);
        assert KeepsParent(moves[j], moves[i]);
        NotAbove(t, moves[j].from, q);
      }
      Untouched(t, moves, i, q);
    }
  }

  lemma PrefixCases(p: Path, q: Path)
    requires p <= q && q != []
    ensures p == q || p <= Parent(q)
  {
  }

  lemma NotAbove(t: Tree, from: Path, q: Path)
    requires from in t && q !in t && q != [] && !(from <= Parent(q))
    ensures !(from <= q)
  {
    if from <= q { PrefixCases(from, q); }
  }

  lemma StaticStep(t: Tree, moves: seq<Move>, i: nat)
    requires Static(t, moves) && i < |moves|
    ensures FreeAt(t, moves, i)
  {
    var m, a := moves[i], After(t, moves, i);
    assert MoveReady(t, m);
    forall j | 0 <= j < i ensures Spares(moves[j], m.from) {
      TargetSparesSource(t, moves, j, i);
      assert Unnested(moves[j], m);
    }
    Untouched(t, moves, i, m.from);
    forall j | 0 <= j < i ensures Spares(moves[j], Parent(m.to)) {
      SpareParent(t, moves, j, i);
    }
    Untouched(t, moves, i, Parent(m.to));
    TargetFree(t, moves, i);
    assert KeepsParent(m, m);
    assert !(m.from <= m.to) by { assert m.from in a && m.to !in a; NotAbove(a, m.from, m.to); }
  }

  lemma StaticIsPlan(t: Tree, moves: seq<Move>)
    requires Static(t, moves)
    ensures Plan(t, moves)
  {
    forall i | 0 <= i < |moves| ensures moves[i].from in t {
      assert MoveReady(t, moves[i]);
    }
    forall i, j | 0 <= i < j < |moves| ensures !(moves[i].from <= moves[j].from) {
      assert Unnested(moves[i], moves[j]);
    }
    forall i | 0 <= i < |moves| ensures FreeAt(t, moves, i) {
      StaticStep(t, moves, i);
    }
  }

  /** Writing a file no move touches keeps the list static. */
  lemma StaticWithControlFile(t: Tree, moves: seq<Move>, p: Path, n: Node)
    requires Static(t, moves) && p != [] && p !in t && IsDir(t, Parent(p))
    requires forall i :: 0 <= i < |moves| ==> moves[i].to != p
    ensures Static(t[p := n], moves)
  {
    var t' := t[p := n];
    forall q ensures HasParent(t', q) {
      assert HasParent(t, q);
    }
    forall i | 0 <= i < |moves| ensures MoveReady(t', moves[i]) && FreedBefore(t', moves, i) {
      assert MoveReady(t, moves[i]) && FreedBefore(t, moves, i);
    }
  }
}
