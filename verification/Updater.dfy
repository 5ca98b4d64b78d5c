/** Replacing a set of binaries: on failure every path has its original back, or its backup is left on disk. */
module Updater {
  import Namespace
  import opened Paths
  import opened RootDirectory

  type Binary = nat
  type PathId = nat
  type DirId = nat

  /** The path to replace and the binary that has been prepared for it. */
  datatype Replacement = Replacement(path: PathId, temp: Binary)

  type Files = map<PathId, Binary>

  /** The temporary directories on disk, each with the hard link it holds, if it does. */
  type Dirs = map<DirId, Option<Binary>>

  /** The binary item i leaves at its path if no later item has the same path. */
  predicate Latest(items: seq<Replacement>, i: nat, n: nat)
    requires i < n <= |items|
  {
    forall j :: i < j < n ==> items[j].path != items[i].path
  }

  predicate Pending(items: seq<Replacement>, n: nat, p: PathId)
    requires n <= |items|
  {
    exists k :: 0 <= k < n && items[k].path == p
  }

  /** A restoring rename of the path has failed. */
  predicate Unrestored(items: seq<Replacement>, failed: set<nat>, p: PathId) {
    exists k :: k in failed && k < |items| && items[k].path == p
  }

  /** The backup directories are new, one for each item so far. */
  predicate Made(backups: seq<DirId>, before: Dirs, dirs: Dirs) {
    && Distinct(backups)
    && (forall i :: 0 <= i < |backups| ==> backups[i] !in before && backups[i] in dirs)
    && (forall d :: d in dirs ==> d in before || d in backups)
    && (forall d :: d in before ==> d in dirs && dirs[d] == before[d])
  }

  /** Item i's directory holds the original. */
  predicate Linked(items: seq<Replacement>, backups: seq<DirId>, dirs: Dirs, before: Files, i: nat)
    requires i < |backups| <= |items|
  {
    items[i].path in before && backups[i] in dirs && dirs[backups[i]] == Some(before[items[i].path])
  }

  ghost predicate AllLinked(items: seq<Replacement>, backups: seq<DirId>, dirs: Dirs, before: Files, n: nat)
    requires n <= |backups| <= |items|
  {
    forall i {:trigger Linked(items, backups, dirs, before, i)} :: 0 <= i < n ==> Linked(items, backups, dirs, before, i)
  }

  predicate Distinct(backups: seq<DirId>) {
    forall i, j :: 0 <= i < j < |backups| ==> backups[i] != backups[j]
  }

  /** The links of the items whose restoring rename failed are in place. */
  ghost predicate Spared(items: seq<Replacement>, backups: seq<DirId>, dirs: Dirs, before: Files, failed: set<nat>, lo: nat, hi: nat)
    requires hi <= |backups| <= |items|
  {
    forall k {:trigger k in failed} :: k in failed ==> lo <= k < hi && Linked(items, backups, dirs, before, k)
  }

  /** Touching one directory leaves the other links. */
  lemma OthersLinked(items: seq<Replacement>, backups: seq<DirId>, dirs: Dirs, before: Files, dirs': Dirs, j: nat, failed: set<nat>, hi: nat)
    requires Distinct(backups) && j < |backups| <= |items| && AllLinked(items, backups, dirs, before, j)
    requires hi <= |backups| && Spared(items, backups, dirs, before, failed, j + 1, hi)
    requires forall d :: d in dirs && d != backups[j] ==> d in dirs' && dirs'[d] == dirs[d]
    ensures AllLinked(items, backups, dirs', before, j) && Spared(items, backups, dirs', before, failed, j + 1, hi)
  {
    forall i | 0 <= i < j ensures Linked(items, backups, dirs', before, i) {
      assert Linked(items, backups, dirs, before, i);
    }
    forall k | k in failed ensures Linked(items, backups, dirs', before, k) {
      assert Linked(items, backups, dirs, before, k);
    }
  }

  lemma OneMore(backups: seq<DirId>, before: Dirs, dirs: Dirs, dir: DirId, link: Option<Binary>)
    requires Made(backups, before, dirs) && dir !in dirs
    ensures dir !in backups && Made(backups + [dir], before, dirs[dir := link])
  {
    var next := backups + [dir];
    assert forall i :: 0 <= i < |backups| ==> next[i] == backups[i];
    assert next[|backups|] == dir;
    assert forall d :: d in backups ==> d in next;
  }

  lemma NextLinked(items: seq<Replacement>, backups: seq<DirId>, dirs: Dirs, before: Files, dir: DirId)
    requires |backups| < |items| && items[|backups|].path in before && AllLinked(items, backups, dirs, before, |backups|)
    requires dir !in backups
    ensures AllLinked(items, backups + [dir], dirs[dir := Some(before[items[|backups|].path])], before, |backups| + 1)
  {
    var next, dirs' := backups + [dir], dirs[dir := Some(before[items[|backups|].path])];
    forall i | 0 <= i < |next| ensures Linked(items, next, dirs', before, i) {
      if i < |backups| { assert Linked(items, backups, dirs, before, i) && next[i] == backups[i] && backups[i] in backups; }
    }
  }

  /** The links of the items that have been restored are no longer in their directories. */
  ghost predicate Emptied(backups: seq<DirId>, dirs: Dirs, failed: set<nat>, lo: nat, hi: nat)
    requires hi <= |backups|
  {
    forall k {:trigger k in failed} {:trigger backups[k]} :: lo <= k < hi && k !in failed ==> backups[k] in dirs && dirs[backups[k]] == None
  }

  class Installation {
    /** Whether every system call succeeds that can, and whether at least removing a directory does. */
    const reliable: bool
    const removes: bool
    var files: Files
    var dirs: Dirs

    method Fate() returns (ok: bool)
      ensures reliable ==> ok
    {
      if reliable { ok := true; } else { ok := *; }
    }

    /** os.MkdirTemp */
    method MakeTemp() returns (ok: bool, dir: DirId)
      modifies this`dirs
      ensures dir !in old(dirs) && (ok ==> dirs == old(dirs)[dir := None]) && (!ok ==> dirs == old(dirs))
      ensures reliable ==> ok
    {
      ghost var bound := Namespace.Bound(dirs.Keys);
      assert bound !in dirs;
      dir :| dir !in dirs;
      ok := Fate();
      if ok { dirs := dirs[dir := None]; }
    }

    /** Links to all originals, before anything is renamed. */
    method Link(items: seq<Replacement>) returns (ok: bool, backups: seq<DirId>)
      modifies this`dirs
      ensures Made(backups, old(dirs), dirs) && |backups| <= |items|
      ensures ok ==> |backups| == |items| && AllLinked(items, backups, dirs, files, |items|)
      ensures reliable && (forall i :: 0 <= i < |items| ==> items[i].path in files) ==> ok
    {
      backups := [];
      for n := 0 to |items|
        invariant |backups| == n && Made(backups, old(dirs), dirs)
        invariant AllLinked(items, backups, dirs, files, n)
      {
        ghost var made, was := backups, dirs;
        var dir;
        ok, dir := MakeTemp();
        if !ok { return; }
        OneMore(made, old(dirs), was, dir, None);
        backups := backups + [dir];
        ok := Fate();
        if !ok || items[n].path !in files { return false, backups; }
        NextLinked(items, made, was, files, dir);
        OneMore(made, old(dirs), was, dir, Some(files[items[n].path]));
        dirs := dirs[dir := Some(files[items[n].path])];
        assert dirs == was[dir := Some(files[items[n].path])];
      }
      ok := true;
    }

    /** replace. Either every path holds its new binary; or every path holds its original, except where a
        restoring rename failed, and the directory of each of those still holds the link to the original after
        the deferred removal of the others. Other files never change, and if removing does not fail nothing
        else is left. */
    method Replace(items: seq<Replacement>) returns (ok: bool, failed: set<nat>, ghost kept: seq<DirId>)
      modifies this
      ensures files.Keys == old(files).Keys
      ensures forall p :: p in files && (forall i :: 0 <= i < |items| ==> items[i].path != p) ==> files[p] == old(files)[p]
      ensures ok ==> failed == {} && forall i :: 0 <= i < |items| && Latest(items, i, |items|) ==>
        items[i].path in files && files[items[i].path] == items[i].temp
      ensures !ok ==> forall p :: p in old(files) ==> files[p] == old(files)[p] || Unrestored(items, failed, p)
      ensures |kept| <= |items| && Spared(items, kept, dirs, old(files), failed, 0, |kept|)
      ensures forall k :: k in failed && k < |kept| ==> kept[k] !in old(dirs)
      ensures forall d :: d in old(dirs) ==> d in dirs && dirs[d] == old(dirs)[d]
      ensures removes ==> forall d :: d in dirs && d !in old(dirs) ==> exists k :: k in failed && k < |kept| && kept[k] == d
      ensures reliable && (forall i :: 0 <= i < |items| ==> items[i].path in old(files)) ==> ok
    {
      var backups;
      failed := {};
      ok, backups := Link(items);
      kept := backups;
      if ok {
        ok, failed := Rename(items, backups);
      }
      RemoveTemps(items, backups, failed, old(files), old(dirs));
    }

    /** The renames, and on failure the way back. */
    method Rename(items: seq<Replacement>, backups: seq<DirId>) returns (ok: bool, failed: set<nat>)
      requires |backups| == |items|
      requires Distinct(backups)
      requires AllLinked(items, backups, dirs, files, |items|)
      modifies this
      ensures files.Keys == old(files).Keys && dirs.Keys == old(dirs).Keys
      ensures forall d :: d in dirs && d !in backups ==> dirs[d] == old(dirs)[d]
      ensures forall p :: p in files && (forall i :: 0 <= i < |items| ==> items[i].path != p) ==> files[p] == old(files)[p]
      ensures ok ==> failed == {} && forall i :: 0 <= i < |items| && Latest(items, i, |items|) ==>
        items[i].path in files && files[items[i].path] == items[i].temp
      ensures !ok ==> forall p :: p in old(files) ==> files[p] == old(files)[p] || Unrestored(items, failed, p)
      ensures Spared(items, backups, dirs, old(files), failed, 0, |items|)
      ensures reliable ==> ok
    {
      failed := {};
      for i := 0 to |items|
        invariant files.Keys == old(files).Keys && dirs == old(dirs)
        invariant forall p :: p in files && (forall k :: 0 <= k < i ==> items[k].path != p) ==> files[p] == old(files)[p]
        invariant forall k :: 0 <= k < i && Latest(items, k, i) ==> items[k].path in files && files[items[k].path] == items[k].temp
      {
        assert Linked(items, backups, dirs, old(files), i);
        ok := Fate();
        if !ok {
          failed := Restore(items, backups, i, old(files));
          return;
        }
        files := files[items[i].path := items[i].temp];
      }
      ok := true;
    }

    /** The inner loop: back from the failed item. A link that has been renamed back is no longer in its
        directory; one that has not stays there. */
    method Restore(items: seq<Replacement>, backups: seq<DirId>, n: nat, ghost before: Files) returns (failed: set<nat>)
      requires n <= |items| == |backups| && files.Keys == before.Keys
      requires Distinct(backups)
      requires AllLinked(items, backups, dirs, before, |items|)
      requires forall p :: p in files && (forall k :: 0 <= k < n ==> items[k].path != p) ==> files[p] == before[p]
      modifies this
      ensures files.Keys == before.Keys && dirs.Keys == old(dirs).Keys
      ensures forall d :: d in dirs && d !in backups ==> dirs[d] == old(dirs)[d]
      ensures forall p :: p in files && (forall i :: 0 <= i < |items| ==> items[i].path != p) ==> files[p] == before[p]
      ensures forall p :: p in before ==> files[p] == before[p] || Unrestored(items, failed, p)
      ensures Spared(items, backups, dirs, before, failed, 0, n)
      ensures Emptied(backups, dirs, failed, 0, n)
    {
      hide Unrestored;
      var j := n;
      failed := {};
      ghost var was := dirs;
      assert WayBack(items, backups, was, dirs, before, failed, n, n);
      assert Settled(items, n, files, before, failed);
      hide WayBack, AllLinked, Spared, Emptied, Distinct, Settled;
      while j > 0
        invariant 0 <= j <= n && files.Keys == before.Keys
        invariant WayBack(items, backups, was, dirs, before, failed, j, n) && Settled(items, j, files, before, failed)
      {
        j := j - 1;
        var dir := backups[j];
        ghost var prior, given := files, failed;
        var restored := Fate();
        OneBack(items, backups, was, dirs, before, failed, j, n);
        if restored {
          files := files[items[j].path := dirs[dir].value];
          dirs := dirs[dir := None];
        } else {
          failed := failed + {j};
        }
        OneSettled(items, j, prior, files, before, given, failed, restored);
      }
      WayBackOver(items, backups, was, dirs, before, failed, n);
      AllSettled(items, files, before, failed);
    }

    /** The deferred removal of every directory that has not been spared; its errors are ignored. */
    method RemoveTemps(items: seq<Replacement>, backups: seq<DirId>, failed: set<nat>, ghost before: Files, ghost was: Dirs)
      requires Made(backups, was, dirs) && |backups| <= |items|
      requires Spared(items, backups, dirs, before, failed, 0, |backups|)
      modifies this`dirs
      ensures Spared(items, backups, dirs, before, failed, 0, |backups|)
      ensures forall d :: d in was ==> d in dirs && dirs[d] == was[d]
      ensures removes ==> forall d :: d in dirs && d !in was ==> exists k :: k in failed && k < |backups| && backups[k] == d
    {
      for n := 0 to |backups|
        invariant Spared(items, backups, dirs, before, failed, 0, |backups|)
        invariant forall d :: d in was ==> d in dirs && dirs[d] == was[d]
        invariant forall d :: d in dirs ==> d in was || d in backups
        invariant removes ==> forall k :: 0 <= k < n && k !in failed ==> backups[k] !in dirs
      {
        if n in failed { continue; }
        var removed := removes;
        if !removes { removed := *; }
        if removed {
          SparedStay(items, backups, dirs, before, failed, n);
          dirs := dirs - {backups[n]};
        }
      }
      if removes {
        forall d | d in dirs && d !in was ensures exists k :: k in failed && k < |backups| && backups[k] == d {
          var k :| 0 <= k < |backups| && backups[k] == d;
          assert k in failed;
        }
      }
    }
  }

  lemma SparedStay(items: seq<Replacement>, backups: seq<DirId>, dirs: Dirs, before: Files, failed: set<nat>, n: nat)
    requires Distinct(backups) && n < |backups| <= |items| && n !in failed && Spared(items, backups, dirs, before, failed, 0, |backups|)
    ensures Spared(items, backups, dirs - {backups[n]}, before, failed, 0, |backups|)
  {
    forall k | k in failed ensures Linked(items, backups, dirs - {backups[n]}, before, k) {
      assert Linked(items, backups, dirs, before, k);
    }
  }

  /** The backup directories on the way back from item n, with j items still to go. */
  ghost predicate WayBack(items: seq<Replacement>, backups: seq<DirId>, was: Dirs, dirs: Dirs, before: Files,
      failed: set<nat>, j: nat, n: nat)
    requires j <= n <= |items| == |backups|
  {
    && dirs.Keys == was.Keys && (forall d :: d in dirs && d !in backups ==> dirs[d] == was[d])
    && AllLinked(items, backups, dirs, before, j) && Spared(items, backups, dirs, before, failed, j, n)
    && Emptied(backups, dirs, failed, j, n)
  }

  lemma WayBackOver(items: seq<Replacement>, backups: seq<DirId>, was: Dirs, dirs: Dirs, before: Files, failed: set<nat>,
      n: nat)
    requires n <= |items| == |backups| && WayBack(items, backups, was, dirs, before, failed, 0, n)
    ensures dirs.Keys == was.Keys && forall d :: d in dirs && d !in backups ==> dirs[d] == was[d]
    ensures Spared(items, backups, dirs, before, failed, 0, n) && Emptied(backups, dirs, failed, 0, n)
  {
  }

  lemma OneBack(items: seq<Replacement>, backups: seq<DirId>, was: Dirs, dirs: Dirs, before: Files, failed: set<nat>,
      j: nat, n: nat)
    requires j < n <= |items| == |backups| && Distinct(backups)
    requires WayBack(items, backups, was, dirs, before, failed, j + 1, n)
    ensures Linked(items, backups, dirs, before, j) && backups[j] in backups
    ensures WayBack(items, backups, was, dirs, before, failed + {j}, j, n)
    ensures WayBack(items, backups, was, dirs[backups[j] := None], before, failed, j, n)
  {
    assert Linked(items, backups, dirs, before, j);
    OthersLinked(items, backups, dirs, before, dirs[backups[j] := None], j, failed, n);
  }

  /** With j items still to go, every other path has its original again or its item could not be restored. */
  ghost predicate Settled(items: seq<Replacement>, j: nat, files: Files, before: Files, failed: set<nat>)
    requires j <= |items| && files.Keys == before.Keys
  {
    forall p {:trigger Pending(items, j, p)} :: p in before && !Pending(items, j, p) ==>
      files[p] == before[p] || Unrestored(items, failed, p)
  }

  lemma OneSettled(items: seq<Replacement>, j: nat, was: Files, files: Files, before: Files, given: set<nat>, failed: set<nat>,
      restored: bool)
    requires j < |items| && was.Keys == files.Keys == before.Keys && Settled(items, j + 1, was, before, given)
    requires items[j].path in before && given <= failed
    requires if restored then files == was[items[j].path := before[items[j].path]] else files == was && j in failed
    ensures Settled(items, j, files, before, failed)
  {
    forall p | p in before && !Pending(items, j, p) ensures files[p] == before[p] || Unrestored(items, failed, p) {
      ItemSettled(items, j, p, was, files, before, given, failed, restored);
    }
  }

  lemma AllSettled(items: seq<Replacement>, files: Files, before: Files, failed: set<nat>)
    requires files.Keys == before.Keys && Settled(items, 0, files, before, failed)
    ensures forall p :: p in before ==> files[p] == before[p] || Unrestored(items, failed, p)
    ensures forall p :: p in files && (forall i :: 0 <= i < |items| ==> items[i].path != p) ==> files[p] == before[p]
  {
    forall p | p in before ensures files[p] == before[p] || Unrestored(items, failed, p) {
      assert !Pending(items, 0, p);
    }
  }

  /** One item on the way back settles its path. */
  lemma ItemSettled(items: seq<Replacement>, j: nat, p: PathId, was: Files, files: Files, before: Files,
      given: set<nat>, failed: set<nat>, restored: bool)
    requires j < |items| && p in before && was.Keys == files.Keys == before.Keys && !Pending(items, j, p)
    requires !Pending(items, j + 1, p) ==> was[p] == before[p] || Unrestored(items, given, p)
    requires items[j].path in before && given <= failed
    requires if restored then files == was[items[j].path := before[items[j].path]] else files == was && j in failed
    ensures files[p] == before[p] || Unrestored(items, failed, p)
  {
    if p != items[j].path {
      assert !Pending(items, j + 1, p);
      if Unrestored(items, given, p) {
        var k :| k in given && k < |items| && items[k].path == p;
        assert k in failed;
      }
    }
  }
}
