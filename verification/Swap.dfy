/** The journal of Load: every entry at the top of the storage directory is put aside under a number, and
    every entry at the top of the staged directory takes its place. */
module Swaps {
  import opened Paths
  import opened Disk
  import opened Journal
  import opened Recovery
  import opened Plans

  // ----- The names of what is put aside -----

  function Digit(n: nat): char
    requires n < 10
  {
    "0123456789"[n]
  }

  function Decimal(n: nat): (s: string)
    ensures s != ""
  {
    if n < 10 then [Digit(n)] else Decimal(n / 10) + [Digit(n % 10)]
  }

  lemma {:induction false} DecimalsDiffer(a: nat, b: nat)
    requires a != b
    ensures Decimal(a) != Decimal(b)
  {
    var s, t := Decimal(a), Decimal(b);
    if a % 10 != b % 10 {
      assert s[|s| - 1] == Digit(a % 10) && t[|t| - 1] == Digit(b % 10);
    } else {
      assert a / 10 != b / 10;
      DecimalsDiffer(a / 10, b / 10);
      assert a >= 10 ==> Decimal(a / 10) == s[..|s| - 1];
      assert b >= 10 ==> Decimal(b / 10) == t[..|t| - 1];
    }
  }

  lemma {:induction false} DecimalDigits(n: nat)
    ensures forall c :: c in Decimal(n) ==> '0' <= c <= '9'
  {
    if n >= 10 { DecimalDigits(n / 10); }
  }

  function OldName(k: nat): string {
    "old-" + Decimal(k)
  }

  function OldPath(k: nat): Path {
    TX + [OldName(k)]
  }

  lemma OldNames(k: nat)
    ensures CleanName(OldName(k)) && !HasForbidden(OldName(k))
    ensures OldName(k)[0] == 'o' && |OldName(k)| >= 5
  {
    DecimalDigits(k);
    var s := OldName(k);
    assert s[..4] == "old-";
    forall c | c in s ensures c != '/' && c != '\\' && c != '\0' {
      assert c in "old-" || c in Decimal(k);
    }
  }

  lemma OldPathsDiffer(j: nat, k: nat)
    requires j != k
    ensures OldPath(j) != OldPath(k)
  {
    DecimalsDiffer(j, k);
    assert OldName(j)[4..] == Decimal(j) && OldName(k)[4..] == Decimal(k);
    assert OldPath(j)[1] == OldName(j) && OldPath(k)[1] == OldName(k);
  }

  predicate AtOld(q: Path) {
    TX <= q && |q| >= 2 && "old-" <= q[1]
  }

  lemma OldPathIs(k: nat, q: Path)
    ensures OldPath(k)[..1] == TX && |OldPath(k)| == 2 && AtOld(OldPath(k))
    ensures OldPath(k) <= q ==> AtOld(q)
  {
    assert OldPath(k)[1] == OldName(k);
    assert OldName(k)[..4] == "old-";
  }

  // ----- The moves -----

  ghost predicate Evicting(t: Tree, m: Move) {
    && |m.from| == 1 && m.from in t && m.from != TX && m.from != INDEX && IsInternalPath(m.from)
    && m.to !in t && exists k: nat :: m.to == OldPath(k)
  }

  predicate Installing(s: Tree, m: Move) {
    |m.to| == 1 && m.to in s && StoredName(m.to[0]) && m.from == STAGED + m.to
  }

  predicate Mirrored(t: Tree, s: Tree, p: Path) {
    (STAGED + p in t <==> p in s) && (p in s ==> t[STAGED + p] == s[p])
  }

  predicate DifferentMoves(a: Move, b: Move) {
    a.from != b.from && a.to != b.to
  }

  ghost predicate Evicted(moves: seq<Move>, n: nat, p: Path)
    requires n <= |moves|
  {
    exists i :: 0 <= i < n && moves[i].from == p
  }

  ghost predicate Placed(moves: seq<Move>, n: nat, p: Path)
    requires n <= |moves|
  {
    exists i :: n <= i < |moves| && moves[i].to == p
  }

  /** s is staged; the first n moves put aside what is there, the others install what is staged. */
  ghost predicate Swapping(t: Tree, s: Tree, moves: seq<Move>, n: nat) {
    && n <= |moves| && Closed(t) && Closed(s) && IsDir(t, TX)
    && (forall i :: 0 <= i < n ==> Evicting(t, moves[i]))
    && (forall i :: n <= i < |moves| ==> Installing(s, moves[i]))
    && (forall i, j {:trigger DifferentMoves(moves[i], moves[j])} ::
          0 <= i < |moves| && 0 <= j < |moves| && i != j ==> DifferentMoves(moves[i], moves[j]))
    && (forall p {:trigger Evicted(moves, n, p)} :: p in t && |p| == 1 && p != TX && p != INDEX ==> Evicted(moves, n, p))
    && (forall p {:trigger Placed(moves, n, p)} :: p in s && |p| == 1 ==> Placed(moves, n, p))
    && (forall p {:trigger Mirrored(t, s, p)} :: Mirrored(t, s, p))
  }

  /** What a move of either kind leaves alone. */
  lemma EvictionSpares(t: Tree, m: Move, q: Path)
    requires Evicting(t, m)
    ensures (q == [] || q[0] != m.from[0]) && !AtOld(q) ==> Spares(m, q)
    ensures AtOld(m.to) && |m.to| == 2 && m.from[0] != TX[0] && m.from[0] != INDEX[0]
  {
    var k: nat :| m.to == OldPath(k);
    OldPathIs(k, q);
    assert m.from == [m.from[0]] && TX == [TX[0]] && INDEX == [INDEX[0]];
  }

  lemma InstallSpares(s: Tree, m: Move, q: Path)
    requires Installing(s, m)
    ensures (q == [] || q[0] != m.to[0]) && (STAGED <= q ==> q == STAGED || q[2] != m.to[0]) ==> Spares(m, q)
    ensures m.to[0] != TX[0] && m.to[0] != INDEX[0] && STAGED <= m.from && m.from[2] == m.to[0] && |m.from| == 3
  {
    assert |STAGED| == 2;
    assert m.from == STAGED + [m.to[0]];
    assert ".vfs" <= TX[0] && ".vfs" <= INDEX[0];
    assert m.from <= q ==> STAGED <= q && q[2] == m.to[0];
  }

  lemma StagedNotOld(q: Path)
    requires STAGED <= q
    ensures !AtOld(q) && TX <= q && q[1] == STAGED[1]
  {
    assert STAGED[1] == "new";
    assert "new"[0] != "old-"[0];
    assert q[1] == "new";
    assert STAGED[..1] == TX;
  }

  lemma ControlNotOld()
    ensures !AtOld(TX) && !AtOld(INDEX) && !AtOld(JOURNAL) && !AtOld(TX_INDEX) && !AtOld(JOURNAL_NEW)
    ensures !(STAGED <= TX) && !(STAGED <= INDEX) && !(STAGED <= JOURNAL) && !(STAGED <= TX_INDEX) && !(STAGED <= JOURNAL_NEW)
  {
    assert STAGED[1] == "new" && JOURNAL[1] == "journal" && TX_INDEX[1] == "index" && JOURNAL_NEW[1] == "journal.new";
    assert "old-"[0] == 'o' && "journal"[0] == 'j' && "index"[0] == 'i' && "journal.new"[0] == 'j' && "new"[0] == 'n';
    assert |TX| == |INDEX| == 1;
  }

  // ----- The list is static -----

  lemma SwapReady(t: Tree, s: Tree, moves: seq<Move>, n: nat, i: nat)
    requires Swapping(t, s, moves, n) && i < |moves|
    ensures MoveReady(t, moves[i]) && FreedBefore(t, moves, i)
  {
    if i < n {
      EvictionSpares(t, moves[i], []);
      assert Parent(moves[i].to) == TX;
    } else {
      var b := moves[i].to;
      assert Installing(s, moves[i]) && Mirrored(t, s, b);
      InstallSpares(s, moves[i], []);
      assert Parent(b) == [];
      if b in t {
        assert b != TX && b != INDEX;
        assert Evicted(moves, n, b);
        var j :| 0 <= j < n && moves[j].from == b;
      }
    }
  }

  lemma SwapUnnested(t: Tree, s: Tree, moves: seq<Move>, n: nat, i: nat, j: nat)
    requires Swapping(t, s, moves, n) && i < |moves| && j < |moves|
    ensures i != j ==> Unnested(moves[i], moves[j])
    ensures KeepsParent(moves[i], moves[j])
  {
    var a, b := moves[i], moves[j];
    assert i != j ==> DifferentMoves(a, b);
    SwapShape(t, s, moves, n, i);
    SwapShape(t, s, moves, n, j);
    if i < n { EvictionSpares(t, a, []); } else { InstallSpares(s, a, []); }
    if j < n { EvictionSpares(t, b, []); } else { InstallSpares(s, b, []); }
  }

  lemma SwapShape(t: Tree, s: Tree, moves: seq<Move>, n: nat, i: nat)
    requires Swapping(t, s, moves, n) && i < |moves|
    ensures if i < n then |moves[i].from| == 1 && |moves[i].to| == 2 && TX <= moves[i].to && moves[i].from[0] != TX[0]
            else |moves[i].from| == 3 && |moves[i].to| == 1 && TX <= moves[i].from && moves[i].to[0] != TX[0]
    ensures Evicting(t, moves[i]) || Installing(s, moves[i])
  {
    if i < n {
      EvictionSpares(t, moves[i], []);
    } else {
      InstallSpares(s, moves[i], []);
      StagedNotOld(moves[i].from);
    }
  }

  lemma SwapStatic(t: Tree, s: Tree, moves: seq<Move>, n: nat)
    requires Swapping(t, s, moves, n)
    ensures Static(t, moves)
  {
    forall i | 0 <= i < |moves| ensures MoveReady(t, moves[i]) && FreedBefore(t, moves, i) {
      SwapReady(t, s, moves, n, i);
    }
    forall i, j | 0 <= i < |moves| && 0 <= j < |moves|
      ensures i != j ==> Unnested(moves[i], moves[j])
      ensures KeepsParent(moves[i], moves[j])
    {
      SwapUnnested(t, s, moves, n, i, j);
    }
  }

  lemma SwapSparesControl(t: Tree, s: Tree, moves: seq<Move>, n: nat)
    requires Swapping(t, s, moves, n)
    ensures AllInternal(moves) && SparesControlFiles(moves)
    ensures forall i :: 0 <= i < |moves| ==> moves[i].to != JOURNAL_NEW
  {
    ControlNotOld();
    forall i | 0 <= i < |moves|
      ensures IsInternalPath(moves[i].from) && IsInternalPath(moves[i].to) && moves[i].to != JOURNAL_NEW
      ensures Spares(moves[i], TX) && Spares(moves[i], JOURNAL) && Spares(moves[i], TX_INDEX) && Spares(moves[i], INDEX)
    {
      if i < n {
        EvictionInternal(t, moves[i]);
        EvictionControl(t, moves[i]);
      } else {
        InstallInternal(s, moves[i]);
        InstallControl(s, moves[i]);
      }
    }
  }

  lemma EvictionControl(t: Tree, m: Move)
    requires Evicting(t, m)
    ensures Spares(m, TX) && Spares(m, JOURNAL) && Spares(m, TX_INDEX) && Spares(m, INDEX) && m.to != JOURNAL_NEW
  {
    ControlNotOld();
    EvictionSpares(t, m, TX);
    EvictionSpares(t, m, JOURNAL);
    EvictionSpares(t, m, TX_INDEX);
    EvictionSpares(t, m, INDEX);
  }

  lemma InstallControl(s: Tree, m: Move)
    requires Installing(s, m)
    ensures Spares(m, TX) && Spares(m, JOURNAL) && Spares(m, TX_INDEX) && Spares(m, INDEX) && m.to != JOURNAL_NEW
  {
    ControlNotOld();
    InstallSpares(s, m, TX);
    InstallSpares(s, m, JOURNAL);
    InstallSpares(s, m, TX_INDEX);
    InstallSpares(s, m, INDEX);
  }

  lemma EvictionInternal(t: Tree, m: Move)
    requires Evicting(t, m)
    ensures IsInternalPath(m.to)
  {
    var k: nat :| m.to == OldPath(k);
    OldNames(k);
    assert CleanName(TX[0]) && !HasForbidden(TX[0]);
  }

  lemma InstallInternal(s: Tree, m: Move)
    requires Installing(s, m)
    ensures IsInternalPath(m.from) && IsInternalPath(m.to)
  {
    assert CleanName(STAGED[0]) && !HasForbidden(STAGED[0]);
    assert CleanName(STAGED[1]) && !HasForbidden(STAGED[1]);
  }

  // ----- What the run leaves -----

  /** The user's part of the tree once the moves have run: the staged tree, and the old index. */
  ghost predicate SwappedAt(t: Tree, s: Tree, r: Tree, q: Path) {
    if INDEX <= q then AgreeAt(r, t, q) else AgreeAt(r, s, q)
  }

  lemma SwapRun(t: Tree, s: Tree, moves: seq<Move>, n: nat, q: Path)
    requires Swapping(t, s, moves, n) && !(TX <= q)
    ensures SwappedAt(t, s, After(t, moves, |moves|), q)
  {
    if q == [] {
      ControlNotOld();
      AllSpare(t, s, moves, n, q);
      Untouched(t, moves, |moves|, q);
    } else if [q[0]] in s {
      InstalledStays(t, s, moves, n, q);
    } else {
      if q in s { AncestorIn(s, [q[0]], q); }
      if [q[0]] in t && !(INDEX <= q) {
        EvictedIsGone(t, s, moves, n, q);
      } else {
        AllSpare(t, s, moves, n, q);
        Untouched(t, moves, |moves|, q);
        if q in t { AncestorIn(t, [q[0]], q); }
      }
    }
  }

  /** Nothing touches a user path whose first name is in neither place, or is the index. */
  lemma AllSpare(t: Tree, s: Tree, moves: seq<Move>, n: nat, q: Path)
    requires Swapping(t, s, moves, n) && !(TX <= q)
    requires q == [] || ([q[0]] !in s && ([q[0]] !in t || INDEX <= q))
    ensures forall j :: 0 <= j < |moves| ==> Spares(moves[j], q)
  {
    hide TX, INDEX, STAGED, StoredName, IsInternalPath, AtOld;
    UserPlace(q);
    forall j | 0 <= j < |moves| ensures Spares(moves[j], q) {
      if j < n {
        EvictionSpares(t, moves[j], q);
        assert moves[j].from == [moves[j].from[0]];
      } else {
        InstallSpares(s, moves[j], q);
        assert moves[j].to == [moves[j].to[0]];
      }
    }
  }

  lemma UserPlace(q: Path)
    requires !(TX <= q)
    ensures !AtOld(q) && !(STAGED <= q) && (q != [] && INDEX <= q ==> q[0] == INDEX[0])
  {
    if STAGED <= q { StagedNotOld(q); }
  }

  lemma InstalledStays(t: Tree, s: Tree, moves: seq<Move>, n: nat, q: Path)
    requires Swapping(t, s, moves, n) && !(TX <= q) && q != [] && [q[0]] in s
    ensures SwappedAt(t, s, After(t, moves, |moves|), q)
  {
    hide TX, INDEX, STAGED, StoredName, IsInternalPath, AtOld;
    assert Placed(moves, n, [q[0]]);
    var i :| n <= i < |moves| && moves[i].to == [q[0]];
    assert Installing(s, moves[i]);
    var from := Source(moves[i].from, moves[i].to, q);
    assert from == STAGED + q by { assert q == [q[0]] + q[1..]; }
    InstallSpares(s, moves[i], q);
    StagedNotOld(from);
    forall j | 0 <= j < i ensures Spares(moves[j], from) {
      assert DifferentMoves(moves[j], moves[i]);
      if j < n { EvictionSpares(t, moves[j], from); } else { InstallSpares(s, moves[j], from); SameTop(moves[j].to, moves[i].to); }
    }
    forall j | i < j < |moves| ensures Spares(moves[j], q) {
      assert DifferentMoves(moves[j], moves[i]);
      InstallSpares(s, moves[j], q);
      SameTop(moves[j].to, moves[i].to);
      UserPlace(q);
    }
    Lands(t, moves, i, |moves|, q);
    assert Mirrored(t, s, q);
    NotIndex(q);
  }

  lemma SameTop(p: Path, q: Path)
    requires |p| == |q| == 1 && p != q
    ensures p[0] != q[0]
  {
  }

  lemma TopNotControl(q: Path)
    requires q != [] && !(TX <= q) && !(INDEX <= q)
    ensures [q[0]] != TX && [q[0]] != INDEX
  {
  }

  lemma OtherTop(p: Path, q: Path)
    requires |p| == 1 && q != [] && p != [q[0]]
    ensures !(p <= q)
  {
  }

  lemma NotIndex(q: Path)
    requires q != [] && q[0] != INDEX[0]
    ensures !(INDEX <= q)
  {
  }

  lemma EvictionTarget(t: Tree, m: Move, q: Path)
    requires Evicting(t, m) && !(TX <= q)
    ensures !(m.to <= q)
  {
    EvictionSpares(t, m, q);
    assert TX <= m.to;
  }

  lemma EvictedIsGone(t: Tree, s: Tree, moves: seq<Move>, n: nat, q: Path)
    requires Swapping(t, s, moves, n) && !(TX <= q) && q != [] && [q[0]] in t && [q[0]] !in s && !(INDEX <= q)
    ensures q !in After(t, moves, |moves|)
  {
    hide TX, INDEX, STAGED, StoredName, IsInternalPath, AtOld;
    var top := [q[0]];
    TopNotControl(q);
    assert Evicted(moves, n, top);
    var i :| 0 <= i < n && moves[i].from == top;
    forall j | i <= j < |moves| ensures !(moves[j].to <= q) {
      if j < n {
        EvictionTarget(t, moves[j], q);
      } else {
        assert Installing(s, moves[j]) && moves[j].to != top;
        OtherTop(moves[j].to, q);
      }
    }
    GoneStays(t, moves, i, |moves|, q);
  }

  lemma TransactionDirectoryIsTop()
    ensures |TX| == 1
  {
  }

  /** Writing the control files does not disturb the plan. */
  lemma SwappingWithFile(t: Tree, s: Tree, moves: seq<Move>, n: nat, p: Path, node: Node)
    requires Swapping(t, s, moves, n) && Closed(t[p := node]) && |p| == 2 && TX <= p && !AtOld(p) && !(STAGED <= p)
    ensures Swapping(t[p := node], s, moves, n)
  {
    hide TX, INDEX, STAGED, StoredName, IsInternalPath, AtOld;
    var t' := t[p := node];
    TransactionDirectoryIsTop();
    forall i | 0 <= i < n ensures Evicting(t', moves[i]) {
      EvictionSpares(t, moves[i], p);
    }
    forall q ensures Mirrored(t', s, q) {
      assert Mirrored(t, s, q);
      assert STAGED <= STAGED + q;
    }
    forall q | q in t' && |q| == 1 && q != TX && q != INDEX ensures Evicted(moves, n, q) {
      assert q in t;
    }
  }

  // ----- Cleaning up in an arbitrary order -----

  /** A rolled-back Load survives an arbitrary order of clean-up exactly if the archive and the store share no
      name at the top. */
  lemma SwapCleanupIff(t: Tree, s: Tree, moves: seq<Move>, n: nat)
    requires Swapping(t, s, moves, n) && IsJournal(t) && JournalOf(t) == moves && TX_INDEX in t
    ensures (forall t' :: PartlyCleaned(t, t') ==> Recovered(t') == User(t)) <==> (forall p :: p in s && |p| == 1 ==> p !in t)
  {
    hide PartlyCleaned, Recovered, Swapping, TX, JOURNAL, TX_INDEX;
    SwapStatic(t, s, moves, n);
    StaticIsPlan(t, moves);
    SwapEvicts(t, s, moves, n);
    CleanupOrderIrrelevantIff(t, moves);
    SwapHarmless(t, s, moves, n);
  }

  lemma SwapHarmless(t: Tree, s: Tree, moves: seq<Move>, n: nat)
    requires Swapping(t, s, moves, n)
    ensures AllHarmless(t, moves) <==> forall p :: p in s && |p| == 1 ==> p !in t
  {
    forall i | 0 <= i < |moves|
      ensures if i < n then Harmless(t, moves[i]) else Harmless(t, moves[i]) <==> moves[i].to !in t
    {
      SwapShape(t, s, moves, n, i);
      if i < n { EvictionSpares(t, moves[i], []); }
    }
    if AllHarmless(t, moves) {
      forall p | p in s && |p| == 1 ensures p !in t {
        assert Placed(moves, n, p);
        var i :| n <= i < |moves| && moves[i].to == p;
        assert Harmless(t, moves[i]);
      }
    }
    if forall p :: p in s && |p| == 1 ==> p !in t {
      forall i | 0 <= i < |moves| ensures Harmless(t, moves[i]) {
        if i >= n { assert Installing(s, moves[i]); }
      }
    }
  }

  lemma SwapEvicts(t: Tree, s: Tree, moves: seq<Move>, n: nat)
    requires Swapping(t, s, moves, n)
    ensures Evicts(t, moves)
  {
    forall i, j | 0 <= i < |moves| && 0 <= j < |moves| && i != j ensures !(moves[i].from <= moves[j].from) {
      SwapUnnested(t, s, moves, n, i, j);
      assert Unnested(moves[i], moves[j]);
    }
    forall i | 0 <= i < |moves| && TX <= moves[i].from
      ensures i >= n && !(moves[i].from <= JOURNAL) && !(moves[i].from <= TX_INDEX) && !(TX <= moves[i].to)
    {
      SwapShape(t, s, moves, n, i);
    }
    forall i, j | 0 <= j < i < |moves| && TX <= moves[i].from && moves[i].to <= moves[j].from
      ensures TX <= moves[j].to && !(moves[i].from <= moves[j].to) && moves[j].to !in t
    {
      SwapShape(t, s, moves, n, i);
      SwapShape(t, s, moves, n, j);
    }
  }
}
