/** Key rotation in the Badger driver: the secret file and the key registry change together, whatever fails
    and wherever the process dies. */
module KeyRotation {
  import opened Paths
  import opened RootDirectory

  /** The key a file is encrypted under, or holds. */
  type Key = nat

  /** The backup directory: copies of both files, and the two markers. */
  datatype Backup = Backup(secret: Option<Key>, registry: Option<Key>, ready: bool, committed: bool)

  datatype Directory = Directory(secret: Key, registry: Key, backup: Option<Backup>)

  /** The key both files have once recovery has completed. */
  predicate LeadsTo(d: Directory, k: Key) {
    match d.backup
    case None => d.secret == d.registry == k
    case Some(b) =>
      if b.committed || !b.ready then d.secret == d.registry == k
      else b.secret == Some(k) && b.registry == Some(k)
  }

  /** What completed recovery makes of the directory. */
  function Recovered(d: Directory): Directory {
    match d.backup
    case None => d
    case Some(b) =>
      if b.committed || !b.ready then d.(backup := None)
      else if b.secret.Some? && b.registry.Some? then Directory(b.secret.value, b.registry.value, None)
      else d
  }

  /** LeadsTo says what it should: recovery ends without a backup and with both files under the key. */
  lemma LeadsToMeansRecovered(d: Directory, k: Key)
    ensures LeadsTo(d, k) ==> Recovered(d) == Directory(k, k, None)
    ensures Recovered(d) == Directory(k, k, None) ==> LeadsTo(d, k)
  {
  }

  /** A backup that is ready holds both files under one key. */
  predicate Sane(d: Directory) {
    d.backup.Some? && d.backup.value.ready ==> d.backup.value.secret.Some? && d.backup.value.secret == d.backup.value.registry
  }

  /** Both copies, if there are both, hold one key. */
  predicate Paired(d: Directory) {
    d.backup.Some? && d.backup.value.secret.Some? && d.backup.value.registry.Some? ==>
      d.backup.value.secret == d.backup.value.registry
  }

  function CopyOf(k: Option<Key>): set<Key> {
    match k case None => {} case Some(x) => {x}
  }

  /** Every key that a file of the directory is under. */
  function KeysOf(d: Directory): set<Key> {
    {d.secret, d.registry} + (match d.backup case None => {} case Some(b) => CopyOf(b.secret) + CopyOf(b.registry))
  }

  function Unmarked(d: Directory): Directory {
    if d.backup.None? then d else d.(backup := Some(d.backup.value.(committed := false)))
  }

  /** Recovery does not miss a copy it has to put back. */
  predicate Recoverable(d: Directory) {
    d.backup.Some? && d.backup.value.ready && !d.backup.value.committed ==>
      d.backup.value.secret.Some? && d.backup.value.registry.Some?
  }

  // ----- Clean-up that is not one step -----

  /** Some files of the backup directory have been removed, or all of it. */
  predicate PartlyRemoved(d: Directory, d': Directory) {
    && d.backup.Some? && d'.secret == d.secret && d'.registry == d.registry
    && match d'.backup
       case None => true
       case Some(b) =>
         && (b.secret == d.backup.value.secret || b.secret == None)
         && (b.registry == d.backup.value.registry || b.registry == None)
         && (b.ready ==> d.backup.value.ready) && (b.committed ==> d.backup.value.committed)
  }

  /** What a removal of the backup can leave, in one step or file by file. */
  predicate Removing(d: Directory, d': Directory, atomic: bool) {
    d' == d || d' == d.(backup := None) || (!atomic && PartlyRemoved(d, d'))
  }

  /** What recovery can leave, wherever it stops: it cleans up, or it puts the secret back, then the registry,
      and then cleans up. */
  predicate Recovering(d: Directory, d': Directory, atomic: bool) {
    match d.backup
    case None => d' == d
    case Some(b) =>
      if b.committed || !b.ready then Removing(d, d', atomic)
      else
        d' == d ||
        (b.secret.Some? &&
          var d1 := d.(secret := b.secret.value);
          d' == d1 || (b.registry.Some? && Removing(d1.(registry := b.registry.value), d', atomic)))
  }

  /** One recovery after the other, each stopped somewhere. */
  predicate Recoveries(d: Directory, stops: seq<Directory>, atomic: bool)
    decreases |stops|
  {
    stops == [] || (Recovering(d, stops[0], atomic) && Recoveries(stops[0], stops[1..], atomic))
  }

  function Last(d: Directory, stops: seq<Directory>): Directory {
    if stops == [] then d else stops[|stops| - 1]
  }

  /** If the backup goes in one step, no run of interrupted recoveries changes where the directory leads. */
  lemma {:induction false} AtomicRecoveries(d: Directory, stops: seq<Directory>, k: Key)
    requires LeadsTo(d, k) && Recoveries(d, stops, true)
    ensures LeadsTo(Last(d, stops), k)
    decreases |stops|
  {
    if stops != [] {
      AtomicRecoveries(stops[0], stops[1..], k);
      assert Last(stops[0], stops[1..]) == Last(d, stops);
    }
  }

  lemma {:induction false} UnreadyRecoveries(d: Directory, stops: seq<Directory>, k: Key)
    requires LeadsTo(d, k) && Recoveries(d, stops, false) && (d.backup.Some? ==> !d.backup.value.ready)
    ensures LeadsTo(Last(d, stops), k)
    decreases |stops|
  {
    if stops != [] {
      UnreadyRecoveries(stops[0], stops[1..], k);
      assert Last(stops[0], stops[1..]) == Last(d, stops);
    }
  }

  /** If it goes file by file in an arbitrary order, that is so exactly for a backup that is not ready: of a ready
      one the committed marker or a copy may go before the ready marker. */
  lemma RepeatedRecoveryIff(d: Directory, k: Key)
    requires LeadsTo(d, k)
    ensures (forall stops :: Recoveries(d, stops, false) ==> LeadsTo(Last(d, stops), k)) <==>
            (d.backup.Some? ==> !d.backup.value.ready)
  {
    if d.backup.Some? && d.backup.value.ready {
      var b := d.backup.value;
      var at := if b.committed then d else Directory(b.secret.value, b.registry.value, Some(b));
      var bad := at.(backup := Some(Backup(None, b.registry, true, false)));
      assert PartlyRemoved(at, bad) && Recovering(d, bad, false);
      var stops := [bad];
      assert stops[1..] == [] && Recoveries(bad, stops[1..], false);
      assert Recoveries(d, stops, false) && Last(d, stops) == bad && !LeadsTo(bad, k);
    } else {
      forall stops | Recoveries(d, stops, false) ensures LeadsTo(Last(d, stops), k) {
        UnreadyRecoveries(d, stops, k);
      }
    }
  }

  /** After the commit, an interrupted removal keeps the new key exactly if it has not taken the committed
      marker before the ready marker: otherwise the next recovery goes back to the old key, or misses a copy. */
  lemma CommittedCleanupIff(d: Directory, d': Directory, k: Key)
    requires LeadsTo(d, k) && Removing(d, d', false) && d.backup.Some? && d.backup.value.committed && d.backup.value.ready
    requires d.backup.value.secret.Some? && d.backup.value.secret != Some(k)
    ensures Recoverable(d') && Recovered(d') == Directory(k, k, None) <==>
      d'.backup.None? || d'.backup.value.committed || !d'.backup.value.ready
  {
  }

  /** After a rollback, an interrupted removal keeps the old key exactly if the copies outlast the ready
      marker. */
  lemma RollbackCleanupIff(d: Directory, d': Directory, k: Key)
    requires d.secret == d.registry == k && LeadsTo(d, k) && Removing(d, d', false)
    requires d.backup.Some? && !d.backup.value.committed && d.backup.value.ready
    ensures Recoverable(d') && Recovered(d') == Directory(k, k, None) <==>
      d'.backup.None? || !d'.backup.value.ready || (d'.backup.value.secret.Some? && d'.backup.value.registry.Some?)
  {
  }

  /** The directory leads to the key, or the removal of a backup that did has been interrupted. */
  ghost predicate Left(d: Directory, k: Key, atomic: bool) {
    LeadsTo(d, k) || (!atomic && exists d0 :: LeadsTo(d0, k) && PartlyRemoved(d0, d))
  }

  lemma RemovingLeft(d: Directory, d': Directory, k: Key, atomic: bool)
    requires LeadsTo(d, k) && Removing(d, d', atomic) && (d.backup.Some? ==> d.secret == d.registry == k)
    ensures Left(d', k, atomic) && d'.secret == d.secret && d'.registry == d.registry
    ensures atomic && Sane(d) ==> Sane(d')
  {
  }

  lemma RecoveringLeft(d: Directory, d': Directory, k: Key, atomic: bool)
    requires LeadsTo(d, k) && Recovering(d, d', atomic)
    ensures Left(d', k, atomic)
    ensures atomic && Sane(d) ==> Sane(d')
  {
    if d.backup.Some? && d.backup.value.ready && !d.backup.value.committed {
      var b := d.backup.value;
      var d2 := Directory(b.secret.value, b.registry.value, d.backup);
      if Removing(d2, d', atomic) { RemovingLeft(d2, d', k, atomic); }
    } else if d.backup.Some? {
      RemovingLeft(d, d', k, atomic);
    }
  }

  /** What a rotation leaves of the backup of an earlier one: the deferred function takes the committed marker
      away first, so the key survives exactly if that backup was not ready or held this very key. */
  predicate Survives(d: Directory, k: Key) {
    d.backup.Some? ==> !d.backup.value.ready || (d.backup.value.secret == Some(k) && d.backup.value.registry == Some(k))
  }

  class BadgerKeys {
    /** Whether every system call and every call into Badger succeeds that can. */
    const reliable: bool
    /** Whether removing the backup directory counts as one step. */
    const atomicCleanup: bool
    var disk: Directory
    /** The key the database is open under. */
    var open: Option<Key>
    var options: Key
    var key: Key
    var failed: Option<Error>
    /** Closing the database has failed, and whether its handle still works is not known. */
    var doubtful: bool

    /** A driver that has not failed has the key of both files in memory and its database opened under it. */
    ghost predicate Valid()
      reads this
    {
      && (atomicCleanup ==> LeadsTo(disk, Recovered(disk).secret) && Sane(disk))
      && (failed.None? ==>
            && open == Some(key) && options == key && disk.secret == disk.registry == key
            && Left(disk, key, atomicCleanup) && Paired(disk))
    }

    constructor (disk: Directory, reliable: bool, atomicCleanup: bool)
      ensures this.disk == disk && this.reliable == reliable && this.atomicCleanup == atomicCleanup && failed == Some(Unfinished)
    {
      this.disk, this.reliable, this.atomicCleanup := disk, reliable, atomicCleanup;
      open, options, key, failed, doubtful := None, disk.secret, disk.secret, Some(Unfinished), false;
    }

    /** New, as far as keys go: recovery, then the database is opened under the key of the secret file, which is the
        one that recovery leads to. */
    method Start(ghost k: Key) returns (r: Outcome)
      requires LeadsTo(disk, k)
      modifies this
      ensures Left(disk, k, atomicCleanup) && Recovering(old(disk), disk, atomicCleanup)
      ensures r.Done? ==> Valid() && failed.None? && !doubtful && key == k && disk == Directory(k, k, None)
      ensures !r.Done? ==> failed == Some(Unfinished)
      ensures KeysOf(disk) <= KeysOf(old(disk))
      ensures reliable ==> r.Done?
    {
      failed := Some(Unfinished);
      r := RecoverRotation();
      RecoveringLeft(old(disk), disk, k, atomicCleanup);
      if !r.Done? { return; }
      options, key := disk.secret, disk.secret;
      var db;
      r, db := OpenDatabase(options);
      if r.Done? { open, failed, doubtful := db, None, false; }
    }

    method Fate() returns (r: Outcome)
      ensures reliable ==> r.Done?
      ensures r.Failed? ==> r.error == IO
    {
      if reliable { r := Done; } else if * { r := Done; } else if * { r := Failed(IO); } else { r := Crashed; }
    }

    /** atomicSecret of the live secret: the rename may have happened even if the call fails. */
    method WriteSecret(k: Key) returns (r: Outcome)
      modifies this`disk
      ensures r.Done? ==> disk == old(disk).(secret := k)
      ensures reliable ==> r.Done?
      ensures disk == old(disk) || disk == old(disk).(secret := k)
      ensures r.Failed? ==> r.error == IO
    {
      r := Fate();
      if r.Done? { disk := disk.(secret := k); } else if * { disk := disk.(secret := k); }
    }

    /** WriteKeyRegistry, or atomicSecret of the registry. */
    method WriteRegistry(k: Key) returns (r: Outcome)
      modifies this`disk
      ensures r.Done? ==> disk == old(disk).(registry := k)
      ensures reliable ==> r.Done?
      ensures disk == old(disk) || disk == old(disk).(registry := k)
      ensures r.Failed? ==> r.error == IO
    {
      r := Fate();
      if r.Done? { disk := disk.(registry := k); } else if * { disk := disk.(registry := k); }
    }

    /** A file of the backup directory, written with atomicSecret. */
    method WriteBackup(b: Backup) returns (r: Outcome)
      requires disk.backup.Some?
      modifies this`disk
      ensures r.Done? ==> disk == old(disk).(backup := Some(b))
      ensures reliable ==> r.Done?
      ensures disk == old(disk) || disk == old(disk).(backup := Some(b))
      ensures r.Failed? ==> r.error == IO
    {
      r := Fate();
      if r.Done? { disk := disk.(backup := Some(b)); } else if * { disk := disk.(backup := Some(b)); }
    }

    /** RemoveAll of the backup directory: in one step, or file by file in an arbitrary order. */
    method RemoveBackup() returns (r: Outcome)
      requires disk.backup.Some?
      modifies this`disk
      ensures r.Done? ==> disk == old(disk).(backup := None)
      ensures reliable ==> r.Done?
      ensures Removing(old(disk), disk, atomicCleanup)
      ensures r.Failed? ==> r.error == IO
    {
      if !atomicCleanup {
        var b := disk.backup.value;
        while b.secret.Some? || b.registry.Some? || b.ready || b.committed
          invariant disk.backup == Some(b) && PartlyRemoved(old(disk), disk)
          decreases b.secret.Some?, b.registry.Some?, b.ready, b.committed
        {
          r := Fate();
          if !r.Done? { return; }
          if {
            case b.secret.Some? => b := b.(secret := None);
            case b.registry.Some? => b := b.(registry := None);
            case b.ready => b := b.(ready := false);
            case b.committed => b := b.(committed := false);
          }
          disk := disk.(backup := Some(b));
        }
      }
      r := Fate();
      if r.Done? { disk := disk.(backup := None); } else if * { disk := disk.(backup := None); }
    }

    /** badger.Open fails when the registry is encrypted under another key. */
    method OpenDatabase(k: Key) returns (r: Outcome, db: Option<Key>)
      ensures r.Done? ==> disk.registry == k && db == Some(k)
      ensures reliable && disk.registry == k ==> r.Done?
      ensures reliable ==> !r.Crashed?
      ensures r.Failed? ==> r.error == IO
    {
      r := Fate();
      if r.Done? && disk.registry != k { r := Failed(IO); }
      db := if r.Done? then Some(k) else None;
    }

    /** recoverRotation. Where it can stop is what Recovering says; completed, it has done what recovery does. */
    method RecoverRotation() returns (r: Outcome)
      modifies this`disk
      ensures Recovering(old(disk), disk, atomicCleanup)
      ensures r.Done? ==> Recoverable(old(disk)) && disk == Recovered(old(disk)) && disk.backup.None?
      ensures KeysOf(disk) <= KeysOf(old(disk))
      ensures reliable && Recoverable(old(disk)) ==> r.Done?
      ensures r.Failed? ==> r.error == IO
    {
      r := Fate();
      if !r.Done? || disk.backup.None? { return; }
      var backup := disk.backup.value;
      if backup.committed || !backup.ready {
        r := RemoveBackup();
        return;
      }
      r := Fate();
      if !r.Done? { return; }
      if backup.secret.None? { return Failed(IO); }
      r := WriteSecret(backup.secret.value);
      if !r.Done? { return; }
      r := Fate();
      if !r.Done? { return; }
      if backup.registry.None? { return Failed(IO); }
      r := WriteRegistry(backup.registry.value);
      if !r.Done? { return; }
      r := RemoveBackup();
    }

    /** prepareRotation. Until the ready marker is there, the live files count. */
    method PrepareRotation(ghost k: Key) returns (r: Outcome)
      requires disk.secret == disk.registry == k
      modifies this`disk
      ensures old(disk).backup.None? ==>
        && LeadsTo(disk, k) && disk.secret == disk.registry == k && Sane(disk)
        && (disk.backup.Some? ==> !disk.backup.value.committed && Interrupted(disk, k, k))
      ensures Paired(old(disk)) ==> Paired(disk)
      ensures old(disk).backup.Some? ==> !r.Done? && disk == old(disk)
      ensures KeysOf(disk) <= KeysOf(old(disk))
      ensures reliable ==> !r.Crashed?
      ensures r.Done? ==> disk == Directory(k, k, Some(Backup(Some(k), Some(k), true, false)))
      ensures reliable && old(disk).backup.None? ==> r.Done?
    {
      r := Fate();
      if !r.Done? { return; }
      if disk.backup.Some? { return Failed(AlreadyExists); }
      disk := disk.(backup := Some(Backup(None, None, false, false)));
      r := WriteBackup(Backup(Some(disk.secret), None, false, false));
      if !r.Done? { return; }
      r := WriteBackup(Backup(Some(disk.secret), Some(disk.registry), false, false));
      if !r.Done? { return; }
      r := WriteBackup(disk.backup.value.(ready := true));
      if !r.Done? { return; }
      r := Fate();
    }

    /** Rotate. Started without the backup of an earlier rotation, it leads to the new key exactly if the
        committed marker has been written. Started with one, it fails, and if nothing else goes wrong the key
        survives exactly if that backup was not ready or held this key. In either case a live driver that has
        not failed holds the key of both files. */
    method Rotate(newKey: Key) returns (r: Outcome, ghost k: Key, ghost committed: bool)
      requires Valid()
      modifies this
      ensures !r.Crashed? ==> Valid()
      ensures !r.Crashed? && failed.None? ==> key == k
      ensures r.Done? ==> k == newKey
      ensures KeysOf(disk) <= KeysOf(old(disk)) + {newKey}
      ensures doubtful && !old(doubtful) ==> !r.Done? && failed == old(failed) == None && disk == old(disk) && key == old(key)
      ensures r.Done? && newKey != old(key) ==> !doubtful
      ensures atomicCleanup || (old(failed).None? && old(disk).backup.None?) ==> Left(disk, k, atomicCleanup)
      ensures old(failed).Some? ==> r == Failed(old(failed).value) && disk == old(disk) && failed == old(failed)
      ensures old(failed).None? && newKey == old(key) ==> r.Done? && disk == old(disk)
      ensures r.Done? && newKey != old(key) ==> failed.None? && key == newKey && disk == Directory(newKey, newKey, None)
      ensures old(failed).None? && old(disk).backup.None? ==> k == if committed then newKey else old(key)
      ensures atomicCleanup && old(failed).None? && old(disk).backup.None? && disk.backup.Some? && newKey != old(key) ==>
        (committed <==> disk.backup.value.committed)
      ensures old(failed).None? && old(disk).backup.Some? && newKey != old(key) ==>
        !r.Done? && (atomicCleanup ==> k == old(key) || LeadsTo(Unmarked(old(disk)), k))
      ensures reliable && old(failed).None? && old(disk).backup.Some? && newKey != old(key) && Recoverable(Unmarked(old(disk))) ==>
        && disk == Recovered(Unmarked(old(disk))) && k == disk.secret
        && (failed.None? <==> Survives(old(disk), old(key))) && (k == old(key) <==> Survives(old(disk), old(key)))
      ensures reliable && old(failed).None? && (newKey == old(key) || old(disk).backup.None?) ==> r.Done?
    {
      k, committed := Recovered(disk).secret, false;
      if failed.Some? { return Failed(failed.value), k, committed; }
      k := key;
      if newKey == key { return Done, k, committed; }
      r := Fate();
      if !r.Done? {
        doubtful := true;
        return;
      }
      open, failed := None, Some(Unfinished);
      var finished;
      r, finished, committed := Attempt(newKey);
      k := if committed then newKey else k;
      if !r.Crashed? && !finished {
        var rolledBack;
        ghost var current, back := if committed then newKey else key, Recovered(Unmarked(disk)).secret;
        rolledBack, committed := RollBack(current, back);
        k := if committed then current else back;
        if rolledBack.Crashed? { r := Crashed; }
      }
    }

    /** The body of rotate up to its return. */
    method Attempt(newKey: Key) returns (r: Outcome, finished: bool, ghost committed: bool)
      requires failed.Some? && options == key && newKey != key && disk.secret == disk.registry == key
      modifies this
      ensures !finished && old(disk).backup.None? ==> Sane(disk)
      ensures Paired(old(disk)) ==> Paired(disk)
      ensures atomicCleanup && Sane(old(disk)) ==> Sane(disk)
      ensures !finished ==> key == old(key) && options == old(key) && open == old(open) && failed == old(failed)
      ensures !finished ==> !r.Done? && if old(disk).backup.None? then Interrupted(disk, old(key), newKey) else disk == old(disk)
      ensures !finished && old(disk).backup.Some? ==> !committed
      ensures !finished && old(disk).backup.None? && disk.backup.Some? ==> (committed <==> disk.backup.value.committed)
      ensures !finished && disk.backup.None? ==> !committed
      ensures old(disk).backup.None? && (r.Crashed? || finished) ==> Left(disk, if committed then newKey else old(key), atomicCleanup)
      ensures finished ==> committed && key == newKey && options == newKey
      ensures finished && !r.Crashed? ==> failed.None? && open == Some(newKey) && disk.secret == disk.registry == newKey
      ensures finished && disk.backup.Some? && atomicCleanup ==> disk.backup.value.committed
      ensures finished ==> old(disk).backup.None?
      ensures r.Done? ==> finished && disk.backup.None?
      ensures reliable && old(disk).backup.None? ==> r.Done?
      ensures KeysOf(disk) <= KeysOf(old(disk)) + {newKey}
      ensures doubtful ==> old(doubtful) && !finished
      ensures reliable ==> !r.Crashed?
    {
      finished, committed := false, false;
      r := PrepareRotation(key);
      if !r.Done? { return; }
      r := Fate();
      if !r.Done? { return; }
      r := WriteRegistry(newKey);
      if !r.Done? { return; }
      r := WriteSecret(newKey);
      if !r.Done? { return; }
      var db;
      r, db := OpenDatabase(newKey);
      if !r.Done? { return; }
      r := WriteBackup(disk.backup.value.(committed := true));
      committed := disk.backup.value.committed;
      if !r.Done? { return; }
      open, options, key, failed, finished, doubtful := db, newKey, newKey, None, true, false;
      ghost var d := disk;
      r := RemoveBackup();
      RemovingLeft(d, disk, newKey, atomicCleanup);
    }

    /** The deferred function of rotate: the committed marker goes first, so that recovery rolls back. As it
        stands the directory leads to `current`, without the marker to `back`. */
    method RollBack(ghost current: Key, ghost back: Key) returns (r: Outcome, ghost committed: bool)
      requires failed.Some? && options == key && Paired(disk)
      requires (disk.backup.Some? && disk.backup.value.ready) || disk.secret == disk.registry
      requires atomicCleanup ==> Sane(disk) && LeadsTo(disk, current)
      modifies this
      ensures key == old(key) && options == old(options)
      ensures KeysOf(disk) <= KeysOf(old(disk)) && (doubtful ==> old(doubtful))
      ensures old(LeadsTo(disk, current) && LeadsTo(Unmarked(disk), back)) ==>
        Left(disk, if committed then current else back, atomicCleanup)
      ensures !r.Crashed? ==> Valid()
      ensures !r.Crashed? && failed.None? ==> !committed && disk.secret == key && disk == Recovered(Unmarked(old(disk)))
      ensures atomicCleanup && disk.backup.Some? ==> (committed <==> disk.backup.value.committed)
      ensures disk.backup.None? ==> !committed
      ensures committed ==> old(disk).backup.Some? && old(disk).backup.value.committed
      ensures r.Failed? ==> failed == Some(r.error) || (failed == old(failed) && disk == Recovered(Unmarked(old(disk))))
      ensures reliable && Recoverable(Unmarked(old(disk))) ==>
        && disk == Recovered(Unmarked(old(disk))) && !committed
        && (r.Done? <==> disk.registry == options) && (failed.None? <==> r.Done?) && !r.Crashed?
    {
      r := Fate();
      var marked := disk.backup.Some? && disk.backup.value.committed;
      committed := marked;
      if r.Crashed? { return; }
      if marked {
        if r.Failed? {
          failed := Some(r.error);
          return;
        }
        disk := Unmarked(disk);
        committed := false;
      }
      ghost var d := disk;
      r := RecoverRotation();
      if LeadsTo(d, back) { RecoveringLeft(d, disk, back, atomicCleanup); }
      if atomicCleanup { RecoveringLeft(d, disk, Recovered(d).secret, true); }
      if !r.Done? {
        if r.Failed? { failed := Some(r.error); }
        return;
      }
      var db;
      r, db := OpenDatabase(options);
      if r.Done? { open, failed, doubtful := db, None, false; }
    }
  }

  /** Where rotate can stop with an error. */
  predicate Interrupted(d: Directory, oldKey: Key, newKey: Key) {
    match d.backup
    case None => d.secret == d.registry == oldKey
    case Some(b) =>
      if !b.ready then d.secret == d.registry == oldKey && !b.committed
      else
        b.secret == b.registry == Some(oldKey) &&
        (b.committed ==> d.secret == d.registry == newKey)
  }

  /** The surviving key is the one that recovery leads to without the committed marker. */
  lemma LeftoverIsRevived(d: Directory, k: Key)
    requires LeadsTo(d, k) && d.backup.Some?
    ensures LeadsTo(Unmarked(d), k) <==> Survives(d, k)
  {
  }

  /** The directory of a rotation from one key to another that has been committed but not cleaned up. */
  function Leftover(oldKey: Key, newKey: Key): Directory {
    Directory(newKey, newKey, Some(Backup(Some(oldKey), Some(oldKey), true, true)))
  }

  /** It happens: with such a directory, the next rotation brings the old key back although the new one had
      been committed. */
  lemma OldKeyReturns(oldKey: Key, newKey: Key)
    requires oldKey != newKey
    ensures LeadsTo(Leftover(oldKey, newKey), newKey) && Sane(Leftover(oldKey, newKey))
    ensures !Survives(Leftover(oldKey, newKey), newKey)
    ensures Recovered(Unmarked(Leftover(oldKey, newKey))) == Directory(oldKey, oldKey, None)
  {
  }

  /** So it ends: the live driver fails, and whoever opens the directory next needs the old key. */
  method RotateOverLeftover(keys: BadgerKeys, oldKey: Key, newKey: Key, nextKey: Key) returns (r: Outcome)
    requires keys.Valid() && keys.reliable && keys.failed.None? && keys.disk == Leftover(oldKey, newKey)
    requires oldKey != newKey && nextKey != newKey
    modifies keys
    ensures !r.Done? && keys.failed.Some? && keys.disk == Directory(oldKey, oldKey, None)
  {
    OldKeyReturns(oldKey, newKey);
    ghost var k, committed;
    r, k, committed := keys.Rotate(nextKey);
  }

  // ----- Runs -----

  /** The keys of the first n rotations. */
  function Requested(targets: seq<Key>, n: nat): set<Key>
    requires n <= |targets|
  {
    set i | 0 <= i < n :: targets[i]
  }

  /** One rotation, before which the process may have died. */
  method Turn(keys: BadgerKeys, target: Key, running: bool, ghost current: Key)
    returns (r: Outcome, live: bool, ghost k: Key)
    requires keys.atomicCleanup && LeadsTo(keys.disk, current)
    requires running ==> keys.Valid() && keys.failed.None? && keys.key == current
    modifies keys
    ensures LeadsTo(keys.disk, k) && KeysOf(keys.disk) <= KeysOf(old(keys.disk)) + {target}
    ensures live ==> keys.Valid() && keys.failed.None? && keys.key == k
    ensures r.Done? ==> k == target
    ensures keys.reliable && (running ==> old(keys.disk).backup.None?) ==> r.Done? && keys.disk.backup.None?
  {
    hide Recovering, Removing;
    r, live, k := Failed(IO), running, current;
    if * { live := false; }
    if !live {
      var started := keys.Start(k);
      live := started.Done?;
    }
    if live {
      ghost var committed;
      r, k, committed := keys.Rotate(target);
      live := !r.Crashed? && keys.failed.None?;
    }
  }

  lemma NothingRequested(targets: seq<Key>)
    ensures Requested(targets, 0) == {}
  {
  }

  lemma OneMoreRequested(targets: seq<Key>, n: nat)
    requires n < |targets|
    ensures Requested(targets, n + 1) == Requested(targets, n) + {targets[n]}
  {
  }

  lemma KeyIsThere(d: Directory, k: Key)
    requires LeadsTo(d, k)
    ensures k in KeysOf(d)
  {
  }

  /** Any run of rotations, with the process dying and being started again anywhere; a driver that has failed is
      started again too. Wherever it stops the directory leads to one key, which is one that has been in use or been
      asked for; and after a rotation that has been acknowledged it is the new one, whatever its removal left. */
  method Run(keys: BadgerKeys, targets: seq<Key>, ghost start: Key) returns (results: seq<Outcome>, ghost at: seq<Key>)
    requires keys.atomicCleanup && LeadsTo(keys.disk, start)
    modifies keys
    ensures |results| == |targets| && |at| == |targets| + 1 && at[0] == start
    ensures LeadsTo(keys.disk, at[|targets|])
    ensures forall i :: 0 <= i < |targets| && results[i].Done? ==> at[i + 1] == targets[i]
    ensures keys.reliable ==> forall i :: 0 <= i < |targets| ==> results[i].Done?
    ensures forall i :: 0 <= i <= |targets| ==> at[i] in KeysOf(old(keys.disk)) + Requested(targets, i)
  {
    hide LeadsTo, KeysOf, Sane, Left, Paired;
    hide Requested;
    KeyIsThere(keys.disk, start);
    NothingRequested(targets);
    results, at := [], [start];
    var live := false;
    for n := 0 to |targets|
      invariant |results| == n && |at| == n + 1 && at[0] == start
      invariant LeadsTo(keys.disk, at[n]) && KeysOf(keys.disk) <= KeysOf(old(keys.disk)) + Requested(targets, n)
      invariant live ==> keys.Valid() && keys.failed.None? && keys.key == at[n]
      invariant keys.reliable ==> (live ==> keys.disk.backup.None?) && forall i :: 0 <= i < n ==> results[i].Done?
      invariant forall i :: 0 <= i < n && results[i].Done? ==> at[i + 1] == targets[i]
      invariant forall i :: 0 <= i <= n ==> at[i] in KeysOf(old(keys.disk)) + Requested(targets, i)
    {
      var r;
      ghost var k;
      r, live, k := Turn(keys, targets[n], live, at[n]);
      KeyIsThere(keys.disk, k);
      OneMoreRequested(targets, n);
      results, at := results + [r], at + [k];
    }
  }
}
