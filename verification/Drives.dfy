/** The drive manager: one open drive per user, counted by its users, closed when nobody holds it, and drained
    before shutdown. Every method is one critical section under the manager's lock, so the invariant it keeps
    holds over all interleavings. */
module DriveManagers {
  import opened Paths
  import opened RootDirectory

  type UserId = nat
  type DriveId = nat
  type Channel = nat

  /** A release function that has been handed out. */
  type Token = nat

  datatype Entry = Entry(drive: DriveId, lastUsed: int, users: nat, closeRequested: bool)

  /** The release functions of a user that have not been called. */
  function HeldBy(handed: map<Token, UserId>, user: UserId): set<Token> {
    set t | t in handed && handed[t] == user
  }

  lemma HandOut(handed: map<Token, UserId>, t: Token, user: UserId)
    requires t !in handed
    ensures |handed[t := user]| == |handed| + 1
    ensures |HeldBy(handed[t := user], user)| == |HeldBy(handed, user)| + 1
  {
    assert handed[t := user].Keys == handed.Keys + {t};
    assert HeldBy(handed[t := user], user) == HeldBy(handed, user) + {t};
  }

  lemma OthersHold(handed: map<Token, UserId>, t: Token, user: UserId, other: UserId)
    requires t !in handed && other != user
    ensures HeldBy(handed[t := user], other) == HeldBy(handed, other)
  {
  }

  lemma TakeBack(handed: map<Token, UserId>, t: Token)
    requires t in handed
    ensures |handed - {t}| == |handed| - 1
    ensures |HeldBy(handed - {t}, handed[t])| == |HeldBy(handed, handed[t])| - 1
    ensures forall v :: v != handed[t] ==> HeldBy(handed - {t}, v) == HeldBy(handed, v)
  {
    var user := handed[t];
    assert (handed - {t}).Keys == handed.Keys - {t};
    assert HeldBy(handed - {t}, user) == HeldBy(handed, user) - {t};
  }

  lemma NobodyHolds(handed: map<Token, UserId>, user: UserId)
    ensures handed == map[] ==> HeldBy(handed, user) == {}
    ensures |handed| == 0 ==> handed == map[]
  {
    if |handed| == 0 { assert handed.Keys == {}; }
  }

  /** The manager's fields, and what has become of its drives and channels: those that have been closed, whose
      each drive is, and whether a shutdown has gone ahead although some drives were still held. */
  datatype View = View(
    drives: map<UserId, Entry>, closed: bool, active: nat, drained: Channel, handed: map<Token, UserId>,
    nextToken: Token, nextDrive: DriveId, nextChannel: Channel,
    shut: set<DriveId>, signalled: set<Channel>, owner: map<DriveId, UserId>, forced: bool)

  ghost predicate EntryOk(v: View, user: UserId) {
    user in v.drives ==>
      && v.drives[user].users == |HeldBy(v.handed, user)|
      && (v.drives[user].closeRequested ==> v.drives[user].users > 0)
      && v.drives[user].drive < v.nextDrive && v.drives[user].drive !in v.shut
      && v.drives[user].drive in v.owner && v.owner[v.drives[user].drive] == user
  }

  predicate Open(v: View, d: DriveId) {
    d < v.nextDrive && d !in v.shut
  }

  /** An open drive is the one listed for its owner. */
  ghost predicate DriveOk(v: View, d: DriveId) {
    Open(v, d) ==> d in v.owner && v.owner[d] in v.drives && v.drives[v.owner[d]].drive == d
  }

  ghost predicate TokenOk(v: View, t: Token) {
    t in v.handed ==> t < v.nextToken && (v.handed[t] in v.drives || v.forced)
  }

  /** `active` counts the outstanding releases and every entry its own; open drives and entries correspond one
      to one, so nobody has two; and the current channel is closed exactly when nothing is held. */
  ghost predicate Ok(v: View) {
    && v.active == |v.handed|
    && (forall user {:trigger EntryOk(v, user)} :: EntryOk(v, user))
    && (forall d {:trigger DriveOk(v, d)} :: DriveOk(v, d))
    && (forall t {:trigger TokenOk(v, t)} :: TokenOk(v, t))
    && v.drained < v.nextChannel && (forall c :: c in v.signalled ==> c < v.nextChannel)
    && (forall d :: d in v.shut ==> d < v.nextDrive)
    && (v.drained in v.signalled <==> v.active == 0)
    && (v.forced ==> v.closed && v.drives == map[])
  }

  /** What any critical section leaves: no drive comes back to life, no channel is reopened, shutdown is final,
      and from then on nothing is opened or handed out and the current channel stays. */
  ghost predicate Advances(a: View, b: View) {
    && a.shut <= b.shut && a.signalled <= b.signalled && (a.closed ==> b.closed)
    && (a.closed ==> b.drained == a.drained && b.nextDrive == a.nextDrive && b.handed.Keys <= a.handed.Keys)
    && a.nextDrive <= b.nextDrive && a.nextToken <= b.nextToken && (a.forced ==> b.forced)
  }

  /** Nobody has two open drives. */
  lemma OneDrivePerUser(v: View, c: DriveId, d: DriveId)
    requires Ok(v) && Open(v, c) && Open(v, d)
    ensures c in v.owner && d in v.owner && (v.owner[c] == v.owner[d] ==> c == d)
  {
    assert DriveOk(v, c) && DriveOk(v, d);
  }

  /** Whoever holds a release keeps the drive open, short of a forced shutdown. */
  lemma HeldStaysOpen(v: View, t: Token)
    requires Ok(v) && t in v.handed && !v.forced
    ensures v.handed[t] in v.drives && Open(v, v.drives[v.handed[t]].drive)
  {
    assert TokenOk(v, t) && EntryOk(v, v.handed[t]);
  }

  /** Nobody holds a drive that is not open. */
  lemma NobodyHoldsClosed(v: View, user: UserId)
    requires Ok(v) && user !in v.drives && !v.forced
    ensures HeldBy(v.handed, user) == {}
  {
    forall t | t in v.handed ensures v.handed[t] != user {
      assert TokenOk(v, t);
    }
  }

  /** Once the channel of a shutdown is closed, every release has been called and no entry is in use. */
  lemma DrainedMeansReleased(v: View)
    requires Ok(v) && v.drained in v.signalled
    ensures v.handed == map[] && forall user :: user in v.drives ==> v.drives[user].users == 0
  {
    NobodyHolds(v.handed, 0);
    forall user | user in v.drives ensures v.drives[user].users == 0 {
      assert EntryOk(v, user);
      NobodyHolds(v.handed, user);
    }
  }

  // ----- The steps -----

  /** An entry gets another time stamp, or is marked for closing while it is in use. */
  lemma Touched(a: View, user: UserId, e: Entry)
    requires Ok(a) && user in a.drives
    requires e.drive == a.drives[user].drive && e.users == a.drives[user].users && (e.closeRequested ==> e.users > 0)
    ensures Ok(a.(drives := a.drives[user := e]))
  {
    var b := a.(drives := a.drives[user := e]);
    forall u ensures EntryOk(b, u) { assert EntryOk(a, u); }
    forall d ensures DriveOk(b, d) { assert DriveOk(a, d); }
    forall t ensures TokenOk(b, t) { assert TokenOk(a, t); }
  }

  function WithDrive(a: View, user: UserId, now: int): View {
    a.(drives := a.drives[user := Entry(a.nextDrive, now, 0, false)], nextDrive := a.nextDrive + 1,
       owner := a.owner[a.nextDrive := user])
  }

  lemma OpenedNew(a: View, user: UserId, now: int)
    requires Ok(a) && user !in a.drives && !a.forced
    ensures Ok(WithDrive(a, user, now))
  {
    var b := WithDrive(a, user, now);
    NobodyHoldsClosed(a, user);
    forall u ensures EntryOk(b, u) { assert EntryOk(a, u); }
    forall d ensures DriveOk(b, d) { assert DriveOk(a, d); }
    forall t ensures TokenOk(b, t) { assert TokenOk(a, t); }
  }

  /** A release is handed out, on a fresh channel if it is the first. */
  function WithToken(a: View, user: UserId): View
    requires user in a.drives
  {
    a.(drives := a.drives[user := a.drives[user].(users := a.drives[user].users + 1)], active := a.active + 1,
       handed := a.handed[a.nextToken := user], nextToken := a.nextToken + 1,
       drained := if a.active == 0 then a.nextChannel else a.drained,
       nextChannel := if a.active == 0 then a.nextChannel + 1 else a.nextChannel)
  }

  lemma HandedOut(a: View, user: UserId)
    requires Ok(a) && user in a.drives && !a.forced
    ensures Ok(WithToken(a, user))
  {
    var b := WithToken(a, user);
    assert TokenOk(a, a.nextToken);
    HandOut(a.handed, a.nextToken, user);
    forall u ensures EntryOk(b, u) {
      assert EntryOk(a, u);
      if u != user { OthersHold(a.handed, a.nextToken, user, u); }
    }
    forall d ensures DriveOk(b, d) { assert DriveOk(a, d); }
    forall t ensures TokenOk(b, t) { assert TokenOk(a, t); }
  }

  /** The entry counts one user less, and goes if it was the last and closing was asked for. */
  function LessOne(e: Entry, now: int): Entry
    requires e.users > 0
  {
    e.(users := e.users - 1, lastUsed := now)
  }

  predicate Leaves(e: Entry) {
    e.users == 1 && e.closeRequested
  }

  function DrivesAfter(drives: map<UserId, Entry>, user: UserId, now: int): map<UserId, Entry>
    requires user in drives ==> drives[user].users > 0
  {
    if user !in drives then drives
    else if Leaves(drives[user]) then drives - {user}
    else drives[user := LessOne(drives[user], now)]
  }

  function ShutAfter(shut: set<DriveId>, drives: map<UserId, Entry>, user: UserId): set<DriveId> {
    if user in drives && Leaves(drives[user]) then shut + {drives[user].drive} else shut
  }

  /** A release is called; the channel is closed when nothing is held any more. */
  function WithoutToken(a: View, t: Token, now: int): View
    requires t in a.handed && a.active > 0
    requires a.handed[t] in a.drives ==> a.drives[a.handed[t]].users > 0
  {
    a.(active := a.active - 1, handed := a.handed - {t},
       signalled := if a.active == 1 then a.signalled + {a.drained} else a.signalled,
       drives := DrivesAfter(a.drives, a.handed[t], now), shut := ShutAfter(a.shut, a.drives, a.handed[t]))
  }

  /** The release is gone; its entry has one user less and a new time stamp, and is closed exactly if that was the
      last user and closing had been asked for; and no other entry or drive is touched. */
  lemma ReleaseMeans(a: View, t: Token, now: int)
    requires Ok(a) && t in a.handed && a.active > 0 && (a.handed[t] in a.drives ==> a.drives[a.handed[t]].users > 0)
    ensures
      var b, user := WithoutToken(a, t, now), a.handed[t];
      b.handed == a.handed - {t} && b.active == |b.handed| && b.closed == a.closed && b.drained == a.drained &&
      (user in b.drives <==> user in a.drives && !(a.drives[user].users == 1 && a.drives[user].closeRequested)) &&
      (user in b.drives ==> b.drives[user] == a.drives[user].(users := a.drives[user].users - 1, lastUsed := now)) &&
      (forall u :: u != user ==> (u in b.drives <==> u in a.drives) && (u in b.drives ==> b.drives[u] == a.drives[u])) &&
      (forall d :: d in b.shut <==> d in a.shut || (user in a.drives && user !in b.drives && d == a.drives[user].drive)) &&
      (b.drained in b.signalled <==> b.handed == map[])
  {
    Released(a, t, now);
    var b := WithoutToken(a, t, now);
    NobodyHolds(b.handed, 0);
  }

  lemma HolderCounted(a: View, t: Token)
    requires Ok(a) && t in a.handed
    ensures a.active > 0 && a.drained !in a.signalled
    ensures a.handed[t] in a.drives ==> a.drives[a.handed[t]].users > 0 && Open(a, a.drives[a.handed[t]].drive)
    ensures a.handed[t] in a.drives || a.forced
  {
    TakeBack(a.handed, t);
    assert EntryOk(a, a.handed[t]) && TokenOk(a, t);
    assert t in HeldBy(a.handed, a.handed[t]);
  }

  lemma Released(a: View, t: Token, now: int)
    requires Ok(a) && t in a.handed && a.active > 0 && (a.handed[t] in a.drives ==> a.drives[a.handed[t]].users > 0)
    ensures Ok(WithoutToken(a, t, now))
  {
    var b, user := WithoutToken(a, t, now), a.handed[t];
    TakeBack(a.handed, t);
    forall u ensures EntryOk(b, u) {
      assert EntryOk(a, u) && EntryOk(a, user);
    }
    forall d ensures DriveOk(b, d) { assert DriveOk(a, d); }
    forall d | d in b.shut ensures d < b.nextDrive { assert EntryOk(a, user); }
    forall x ensures TokenOk(b, x) {
      assert TokenOk(a, x);
      if x in b.handed && user in a.drives && b.handed[x] == user {
        assert x in HeldBy(b.handed, user);
        assert EntryOk(a, user);
      }
    }
  }

  lemma ReleaseAdvances(a: View, t: Token, now: int)
    requires Ok(a) && t in a.handed && a.active > 0 && (a.handed[t] in a.drives ==> a.drives[a.handed[t]].users > 0)
    ensures Advances(a, WithoutToken(a, t, now))
  {
  }

  /** A drive that nobody holds is closed. */
  function WithoutDrive(a: View, user: UserId): View
    requires user in a.drives
  {
    a.(drives := a.drives - {user}, shut := a.shut + {a.drives[user].drive})
  }

  lemma ClosedUnheld(a: View, user: UserId)
    requires Ok(a) && user in a.drives && a.drives[user].users == 0
    ensures Ok(WithoutDrive(a, user)) && Open(a, a.drives[user].drive)
  {
    var b := WithoutDrive(a, user);
    assert EntryOk(a, user);
    forall u ensures EntryOk(b, u) { assert EntryOk(a, u); }
    forall d ensures DriveOk(b, d) { assert DriveOk(a, d); }
    forall t ensures TokenOk(b, t) {
      assert TokenOk(a, t);
      assert t in a.handed && a.handed[t] == user ==> t in HeldBy(a.handed, user);
    }
  }

  lemma NoMoreDrives(a: View)
    requires Ok(a)
    ensures Ok(a.(closed := true))
  {
    var b := a.(closed := true);
    forall u ensures EntryOk(b, u) { assert EntryOk(a, u); }
    forall d ensures DriveOk(b, d) { assert DriveOk(a, d); }
    forall t ensures TokenOk(b, t) { assert TokenOk(a, t); }
  }

  /** What the invariant says about entries and tokens at hand. */
  lemma Facts(v: View, user: UserId)
    requires Ok(v)
    ensures user in v.drives ==> Open(v, v.drives[user].drive) && v.drives[user].users == |HeldBy(v.handed, user)|
    ensures v.nextToken !in v.handed && (v.forced ==> v.closed)
  {
    assert EntryOk(v, user) && TokenOk(v, v.nextToken);
  }

  /** The manager once it has closed every drive. */
  ghost predicate AllClosed(a: View, b: View) {
    && b == a.(drives := map[], shut := b.shut, forced := b.forced)
    && a.shut <= b.shut && (forall d :: d in b.shut && d !in a.shut ==> exists u :: u in a.drives && a.drives[u].drive == d)
    && (forall u :: u in a.drives ==> a.drives[u].drive in b.shut)
    && (a.forced ==> b.forced) && (b.forced || a.handed == map[])
  }

  lemma Shutdown(a: View, b: View)
    requires Ok(a) && a.closed && AllClosed(a, b)
    ensures Ok(b) && forall d :: !Open(b, d)
  {
    forall d ensures DriveOk(b, d) && !Open(b, d) { assert DriveOk(a, d); }
    forall u ensures EntryOk(b, u) { }
    forall t ensures TokenOk(b, t) { assert TokenOk(a, t); }
    forall d | d in b.shut ensures d < b.nextDrive {
      if d !in a.shut {
        var u :| u in a.drives && a.drives[u].drive == d;
        assert EntryOk(a, u);
      }
    }
  }

  class DriveManager {
    var drives: map<UserId, Entry>
    const idleTimeout: int
    /** Whether every drive can be opened and closed. */
    const reliable: bool
    var closed: bool
    var active: nat
    var drained: Channel
    /** The once flags of the release functions: those not called so far. */
    var handed: map<Token, UserId>
    var nextToken: Token
    var nextDrive: DriveId
    var nextChannel: Channel
    ghost var shut: set<DriveId>
    ghost var signalled: set<Channel>
    ghost var owner: map<DriveId, UserId>
    ghost var forced: bool

    ghost function Now(): View
      reads this
    {
      View(drives, closed, active, drained, handed, nextToken, nextDrive, nextChannel, shut, signalled, owner, forced)
    }

    ghost predicate Valid()
      reads this
    {
      Ok(Now())
    }

    constructor (idleTimeout: int, reliable: bool)
      ensures Valid() && drives == map[] && !closed && !forced
      ensures this.idleTimeout == idleTimeout && this.reliable == reliable
    {
      this.idleTimeout, this.reliable := idleTimeout, reliable;
      drives, handed, owner, closed, active := map[], map[], map[], false, 0;
      nextToken, nextDrive, nextChannel, drained := 0, 0, 1, 0;
      shut, signalled, forced := {}, {0}, false;
    }

    /** drive.Close(). The precondition is the point: no drive is closed twice. */
    method CloseHandle(d: DriveId) returns (r: Outcome)
      requires d !in shut
      modifies this`shut
      ensures shut == old(shut) + {d} && !r.Crashed? && (reliable ==> r.Done?)
    {
      shut := shut + {d};
      if reliable { r := Done; } else if * { r := Done; } else { r := Failed(IO); }
    }

    /** close(m.drained). No channel is closed twice. */
    method Signal()
      requires drained !in signalled
      modifies this`signalled
      ensures signalled == old(signalled) + {drained}
    {
      signalled := signalled + {drained};
    }

    /** driveLocked */
    method Drive(user: UserId, now: int) returns (r: Outcome, drive: DriveId)
      requires Valid()
      modifies this`drives, this`nextDrive, this`owner
      ensures Valid() && Advances(old(Now()), Now())
      ensures closed ==> r == Failed(Unfinished)
      ensures !closed ==> r.Done? || (user !in old(drives) && r == Failed(IO))
      ensures reliable && !closed ==> r.Done?
      ensures !r.Done? ==> Now() == old(Now())
      ensures r.Done? ==> !closed && user in drives && drives[user].drive == drive && Open(Now(), drive)
      ensures r.Done? ==> Now() == if user in old(drives)
        then old(Now()).(drives := old(drives)[user := old(drives)[user].(lastUsed := now)])
        else WithDrive(old(Now()), user, now)
    {
      r, drive := Done, 0;
      if closed { return Failed(Unfinished), 0; }
      assert EntryOk(Now(), user);
      if user in drives {
        Touched(Now(), user, drives[user].(lastUsed := now));
        drives := drives[user := drives[user].(lastUsed := now)];
        drive := drives[user].drive;
        return;
      }
      if !reliable {
        if * { return Failed(IO), 0; }
      }
      OpenedNew(Now(), user, now);
      drive := nextDrive;
      owner := owner[drive := user];
      drives := drives[user := Entry(drive, now, 0, false)];
      nextDrive := nextDrive + 1;
    }

    /** acquireLocked: the drive is counted as held until the release with this token is called. */
    method Acquire(user: UserId, now: int) returns (r: Outcome, drive: DriveId, release: Token)
      requires Valid()
      modifies this
      ensures Valid() && Advances(old(Now()), Now())
      ensures closed == old(closed) && (closed ==> r == Failed(Unfinished))
      ensures !closed ==> r.Done? || (user !in old(drives) && r == Failed(IO))
      ensures reliable && !closed ==> r.Done?
      ensures !r.Done? ==> Now() == old(Now())
      ensures r.Done? ==>
        && handed == old(handed)[release := user] && release !in old(handed)
        && user in drives && drives[user].drive == drive && Open(Now(), drive) && shut == old(shut)
        && (user in old(drives) ==> drive == old(drives)[user].drive)
      ensures r.Done? ==>
        drives[user].users == (if user in old(drives) then old(drives)[user].users else 0) + 1 && drives[user].lastUsed == now
      ensures r.Done? ==> drives[user].closeRequested == (user in old(drives) && old(drives)[user].closeRequested)
      ensures r.Done? ==> forall v :: v != user ==> (v in drives <==> v in old(drives)) && (v in drives ==> drives[v] == old(drives)[v])
    {
      hide Ok, HeldBy;
      release := 0;
      r, drive := Drive(user, now);
      if !r.Done? { return; }
      Facts(Now(), user);
      release := HandOutToken(user);
    }

    /** The counting in acquireLocked. */
    method HandOutToken(user: UserId) returns (release: Token)
      requires Valid() && user in drives && !forced && nextToken !in handed
      modifies this`drives, this`active, this`drained, this`nextChannel, this`handed, this`nextToken
      ensures Valid() && release == old(nextToken) && Now() == WithToken(old(Now()), user)
    {
      hide Ok, HeldBy, EntryOk, DriveOk, TokenOk;
      HandedOut(Now(), user);
      if active == 0 {
        drained := nextChannel;
        nextChannel := nextChannel + 1;
      }
      active := active + 1;
      drives := drives[user := drives[user].(users := drives[user].users + 1)];
      release := nextToken;
      handed := handed[release := user];
      nextToken := nextToken + 1;
      assert Now() == WithToken(old(Now()), user);
    }

    /** A release function. Calling it again does nothing, and calling it late, after a forced shutdown, does
        no harm. */
    method Release(t: Token, now: int)
      requires Valid()
      modifies this
      ensures Valid() && Advances(old(Now()), Now())
      ensures t !in old(handed) ==> Now() == old(Now())
      ensures t in old(handed) ==>
        old(active) > 0 && (old(handed)[t] in old(drives) ==> old(drives)[old(handed)[t]].users > 0) &&
        Now() == WithoutToken(old(Now()), t, now)
    {
      hide Ok, HeldBy, DrivesAfter, ShutAfter;
      if t !in handed { return; }
      HolderCounted(Now(), t);
      Released(Now(), t, now);
      ReleaseAdvances(Now(), t, now);
      LetGo(handed[t], now);
      handed := handed - {t};
      active := active - 1;
      if active == 0 { Signal(); }
    }

    /** What release does to the entry, if there still is one. */
    method LetGo(user: UserId, now: int)
      requires user in drives ==> drives[user].users > 0 && drives[user].drive !in shut
      modifies this`drives, this`shut
      ensures drives == DrivesAfter(old(drives), user, now) && shut == ShutAfter(old(shut), old(drives), user)
    {
      if user !in drives { return; }
      var e := drives[user].(users := drives[user].users - 1, lastUsed := now);
      drives := drives[user := e];
      if e.users == 0 && e.closeRequested {
        drives := drives - {user};
        var ignored := CloseHandle(e.drive);
      }
    }

    /** The critical section of Stats: a drive opened only for it is closed with the last release. */
    method AcquireForStats(user: UserId, now: int) returns (r: Outcome, drive: DriveId, release: Token, wasOpen: bool)
      requires Valid()
      modifies this
      ensures Valid() && Advances(old(Now()), Now())
      ensures wasOpen <==> user in old(drives)
      ensures !closed ==> r.Done? || (!wasOpen && r == Failed(IO))
      ensures reliable && !closed ==> r.Done?
      ensures closed == old(closed) && (closed ==> r == Failed(Unfinished))
      ensures !r.Done? ==> Now() == old(Now())
      ensures r.Done? ==>
        && handed == old(handed)[release := user] && release !in old(handed)
        && user in drives && drives[user].drive == drive && Open(Now(), drive)
        && (wasOpen ==> drive == old(drives)[user].drive)
      ensures r.Done? ==> forall v :: v != user ==> (v in drives <==> v in old(drives)) && (v in drives ==> drives[v] == old(drives)[v])
      ensures r.Done? ==> drives[user].closeRequested == if wasOpen then old(drives)[user].closeRequested else true
      ensures r.Done? ==> drives[user].users == (if wasOpen then old(drives)[user].users else 0) + 1 && shut == old(shut)
    {
      wasOpen := user in drives;
      r, drive, release := Acquire(user, now);
      if r.Done? && !wasOpen {
        assert EntryOk(Now(), user);
        assert release in HeldBy(handed, user);
        Touched(Now(), user, drives[user].(closeRequested := true));
        drives := drives[user := drives[user].(closeRequested := true)];
        assert EntryOk(Now(), user);
      }
    }

    /** Stats. Others may go on while it walks the tree; all along its drive is held. Undisturbed it leaves everything as
        it was: a drive that was open is open and is marked for closing only if it was, and one that was not open has
        been closed again. */
    method Stats(user: UserId, now: int, later: int, undisturbed: bool) returns (r: Outcome, wasOpen: bool, ghost late: View)
      requires Valid()
      modifies this
      ensures Valid() && Ok(late) && Advances(late, Now())
      ensures wasOpen <==> user in old(drives)
      ensures reliable && !old(closed) ==> r.Done?
      ensures !r.Done? ==> Now() == old(Now())
      ensures r.Done? && !late.forced ==> user in late.drives && Open(late, late.drives[user].drive)
      ensures r.Done? && undisturbed ==> handed == old(handed) && (user in drives <==> user in old(drives))
      ensures r.Done? && undisturbed && wasOpen ==>
        drives == old(drives)[user := old(drives)[user].(lastUsed := later)] && shut == old(shut)
      ensures r.Done? && undisturbed && !wasOpen ==>
        user in late.drives && drives == old(drives) && shut == old(shut) + {late.drives[user].drive}
    {
      hide Ok, HeldBy, Advances;
      Unchanging(Now());
      late := Now();
      var drive, release;
      r, drive, release, wasOpen := AcquireForStats(user, now);
      Unchanging(Now());
      late := Now();
      if !r.Done? { return; }
      Marked(old(Now()), user);
      if !undisturbed { Interfere(release, now); }
      late := Now();
      if !forced { HeldStaysOpen(Now(), release); }
      Release(release, later);
    }

    /** CloseDrive: at once if nobody holds the drive, and otherwise with the last release. */
    method CloseDrive(user: UserId) returns (r: Outcome)
      requires Valid()
      modifies this
      ensures Valid() && Advances(old(Now()), Now())
      ensures user !in old(drives) ==> r.Done? && Now() == old(Now())
      ensures user in old(drives) && old(drives)[user].users > 0 ==>
        r.Done? && Now() == old(Now()).(drives := old(drives)[user := old(drives)[user].(closeRequested := true)])
      ensures user in old(drives) && old(drives)[user].users == 0 ==> Now() == WithoutDrive(old(Now()), user)
    {
      if user !in drives { return Done; }
      if drives[user].users > 0 {
        Touched(Now(), user, drives[user].(closeRequested := true));
        drives := drives[user := drives[user].(closeRequested := true)];
        return Done;
      }
      ClosedUnheld(Now(), user);
      var d := drives[user].drive;
      drives := drives - {user};
      r := CloseHandle(d);
    }

    /** closeIdle: exactly the drives that nobody holds and nobody has used for long. */
    method CloseIdle(now: int)
      requires Valid()
      modifies this
      ensures Valid() && Advances(old(Now()), Now())
      ensures forall user :: user in drives <==>
        user in old(drives) && (old(drives)[user].users > 0 || now - old(drives)[user].lastUsed < idleTimeout)
      ensures forall user :: user in drives ==> drives[user] == old(drives)[user]
      ensures handed == old(handed)
    {
      hide Ok, HeldBy;
      var todo := drives.Keys;
      while todo != {}
        invariant Valid() && Advances(old(Now()), Now()) && handed == old(handed)
        invariant todo <= drives.Keys <= old(drives).Keys
        invariant forall user :: user in drives ==> drives[user] == old(drives)[user]
        invariant forall user :: user in old(drives) && user !in todo ==>
          (user in drives <==> old(drives)[user].users > 0 || now - old(drives)[user].lastUsed < idleTimeout)
        decreases |todo|
      {
        var user :| user in todo;
        todo := todo - {user};
        if drives[user].users > 0 || now - drives[user].lastUsed < idleTimeout { continue; }
        CloseUnheld(user);
      }
    }

    /** The body of that loop. */
    method CloseUnheld(user: UserId)
      requires Valid() && user in drives && drives[user].users == 0
      modifies this`drives, this`shut
      ensures Valid() && Now() == WithoutDrive(old(Now()), user)
    {
      hide HeldBy;
      ClosedUnheld(Now(), user);
      var ignored := CloseHandle(drives[user].drive);
      drives := drives - {user};
    }

    /** The first critical section of CloseWithContext: no drive is opened from here on. */
    method BeginClose() returns (channel: Channel)
      requires Valid()
      modifies this`closed
      ensures Valid() && Advances(old(Now()), Now())
      ensures closed && channel == drained && Now() == old(Now()).(closed := true)
    {
      NoMoreDrives(Now());
      closed := true;
      channel := drained;
    }

    /** The last critical section of CloseWithContext, after it has received from the channel it got from
        BeginClose or has timed out. A shutdown that has received closes its drives only when every release
        has been called; either way none stays open, and none is closed twice. `broken` are the drives
        whose Close has failed. */
    method FinishClose(channel: Channel, received: bool) returns (r: Outcome, ghost broken: set<DriveId>)
      requires Valid() && closed && channel == drained
      requires received ==> channel in signalled
      modifies this
      ensures Valid() && Advances(old(Now()), Now())
      ensures drives == map[] && forall d :: !Open(Now(), d)
      ensures received ==> old(handed) == map[] && forced == old(forced)
      ensures handed == old(handed) && (!received ==> forced)
      ensures r == if !received then Failed(Unfinished) else if broken != {} then Failed(IO) else Done
      ensures broken <= shut - old(shut) && (reliable ==> broken == {})
    {
      hide Ok, HeldBy;
      ghost var a := Now();
      if received { DrainedMeansReleased(a); }
      var errors;
      errors, broken := CloseAll();
      r := if !received then Failed(Unfinished) else if errors then Failed(IO) else Done;
      forced := forced || !received;
      assert AllClosed(a, Now());
      Shutdown(a, Now());
    }

    // ----- Other requests -----

    /** Any number of critical sections of others, who do not have this token. */
    method Interfere(mine: Token, now: int)
      requires Valid() && mine in handed
      modifies this
      ensures Valid() && StillHeld(old(Now()), Now(), mine)
    {
      hide Ok, HeldBy, Advances;
      StillHeldSame(Now(), mine);
      var n: nat := *;
      while n > 0
        invariant Valid() && StillHeld(old(Now()), Now(), mine)
      {
        ghost var a := Now();
        OtherStep(Some(mine), now);
        StillHeldLonger(old(Now()), a, Now(), mine);
        n := n - 1;
      }
    }

    /** Any number of critical sections of anyone. */
    method Proceed(now: int)
      requires Valid()
      modifies this
      ensures Valid() && Advances(old(Now()), Now())
    {
      hide Ok, HeldBy;
      var n: nat := *;
      while n > 0
        invariant Valid() && Advances(old(Now()), Now())
      {
        OtherStep(None, now);
        n := n - 1;
      }
    }

    /** One critical section, of someone who does not have this token, if there is one. */
    method OtherStep(mine: Option<Token>, now: int)
      requires Valid() && (mine.Some? ==> mine.value in handed)
      modifies this
      ensures Valid() && Advances(old(Now()), Now())
      ensures mine.Some? ==> StillHeld(old(Now()), Now(), mine.value)
    {
      hide Ok, HeldBy, DrivesAfter, ShutAfter;
      ghost var a := Now();
      if mine.Some? { WhileHeld(a, mine.value); }
      Nothing(a);
      var user: UserId := *;
      var t: Token := *;
      var drained': bool := *;
      if {
        case true =>
          var r, drive, release := Acquire(user, now);
        case true =>
          var r, drive, release, wasOpen := AcquireForStats(user, now);
        case mine != Some(t) =>
          Release(t, now);
          if t in a.handed { DriveKept(a.drives, a.handed[t], now); }
        case true =>
          var r := CloseDrive(user);
        case true =>
          CloseIdle(now);
        case true =>
          var channel := BeginClose();
        case closed =>
          var r, broken := FinishClose(drained, drained' && active == 0);
      }
      if mine.Some? { WhileHeld(Now(), mine.value); }
    }

    /** CloseWithContext. Between its two critical sections others go on, and it waits until the channel is closed or
        it times out, even if all have been released by then (`inTime`); if it is closed already, that counts whatever the time. `late` is the state just before it closes
        the drives: if it reports success, every release has been called by then. Either way no drive is open
        afterwards, and none will be. */
    method CloseWithContext(now: int, inTime: bool) returns (r: Outcome, ghost late: View)
      requires Valid()
      modifies this
      ensures Valid() && Ok(late) && Advances(old(Now()), late) && Advances(late, Now())
      ensures closed && late.closed && drives == map[] && forall d :: !Open(Now(), d)
      ensures r.Done? ==> late.handed == map[] && late.drained in late.signalled && forced == late.forced
      ensures late.handed != map[] ==> r == Failed(Unfinished) && forced
      ensures reliable && (old(handed) == map[] || (late.handed == map[] && inTime)) ==> r.Done?
    {
      hide Ok, HeldBy;
      Nothing(Now());
      var channel := BeginClose();
      Proceed(now);
      Nothing(Now());
      var received := active == 0;
      if !received {
        Proceed(now);
        Nothing(Now());
        received := active == 0 && inTime;
      }
      late := Now();
      ghost var broken;
      r, broken := FinishClose(channel, received);
    }

    /** The loop of CloseWithContext. */
    method CloseAll() returns (errors: bool, ghost broken: set<DriveId>)
      requires Valid()
      modifies this`drives, this`shut
      ensures drives == map[] && old(shut) <= shut
      ensures (errors <==> broken != {}) && broken <= shut - old(shut) && (reliable ==> broken == {})
      ensures forall u :: u in old(drives) ==> old(drives)[u].drive in shut
      ensures forall d :: d in shut && d !in old(shut) ==> exists u :: u in old(drives) && old(drives)[u].drive == d
    {
      hide Ok, HeldBy;
      ghost var a := Now();
      errors, broken := false, {};
      NoneClosed(a);
      var todo := drives.Keys;
      while todo != {}
        invariant drives.Keys == todo && PartlyClosed(a, drives, shut, broken)
        invariant (errors <==> broken != {}) && (reliable ==> broken == {})
        decreases |todo|
      {
        var user :| user in todo;
        todo := todo - {user};
        OneClosed(a, drives, shut, broken, user);
        var closing := CloseHandle(drives[user].drive);
        errors := errors || !closing.Done?;
        if !closing.Done? { broken := broken + {drives[user].drive}; }
        drives := drives - {user};
      }
    }
  }

  /** The release has not been called, and its drive is still the same open one, short of a forced shutdown. */
  ghost predicate StillHeld(a: View, b: View, t: Token) {
    && Advances(a, b) && t in a.handed && t in b.handed && b.handed[t] == a.handed[t]
    && (b.forced ||
        (a.handed[t] in a.drives && a.handed[t] in b.drives && b.drives[a.handed[t]].drive == a.drives[a.handed[t]].drive))
  }

  lemma WhileHeld(a: View, t: Token)
    requires Ok(a) && t in a.handed
    ensures a.active > 0 && a.drained !in a.signalled
    ensures !a.forced ==> a.handed[t] in a.drives && Open(a, a.drives[a.handed[t]].drive)
  {
    HolderCounted(a, t);
    if !a.forced { HeldStaysOpen(a, t); }
  }

  /** The channel is closed exactly when nothing is held. */
  lemma Nothing(a: View)
    requires Ok(a)
    ensures a.active == 0 <==> a.drained in a.signalled
    ensures a.active == 0 <==> a.handed == map[]
  {
    NobodyHolds(a.handed, 0);
  }

  lemma Unchanging(a: View)
    ensures Advances(a, a)
  {
  }

  /** An entry is marked for closing only while it is in use. */
  lemma Marked(v: View, user: UserId)
    requires Ok(v)
    ensures user in v.drives && v.drives[user].closeRequested ==> v.drives[user].users > 0
  {
    assert EntryOk(v, user);
  }

  lemma StillHeldSame(a: View, t: Token)
    requires Ok(a) && t in a.handed
    ensures StillHeld(a, a, t)
  {
    if !a.forced { HeldStaysOpen(a, t); }
  }

  lemma StillHeldLonger(a: View, b: View, c: View, t: Token)
    requires StillHeld(a, b, t) && StillHeld(b, c, t)
    ensures StillHeld(a, c, t)
  {
  }

  lemma DriveKept(drives: map<UserId, Entry>, user: UserId, now: int)
    requires user in drives ==> drives[user].users > 0
    ensures forall u :: u in DrivesAfter(drives, user, now) ==> u in drives && DrivesAfter(drives, user, now)[u].drive == drives[u].drive
  {
  }

  /** These drives of the manager are still to be closed. */
  ghost predicate PartlyClosed(a: View, drives: map<UserId, Entry>, shut: set<DriveId>, broken: set<DriveId>) {
    && drives.Keys <= a.drives.Keys && a.shut <= shut && broken <= shut - a.shut
    && (forall u :: u in drives ==> drives[u] == a.drives[u] && drives[u].drive !in shut)
    && (forall u :: u in a.drives && u !in drives ==> a.drives[u].drive in shut)
    && (forall d :: d in shut && d !in a.shut ==> exists u :: u in a.drives && a.drives[u].drive == d)
  }

  lemma NoneClosed(a: View)
    requires Ok(a)
    ensures PartlyClosed(a, a.drives, a.shut, {})
  {
    forall u ensures u in a.drives ==> a.drives[u].drive !in a.shut { Facts(a, u); }
  }

  lemma OneClosed(a: View, drives: map<UserId, Entry>, shut: set<DriveId>, broken: set<DriveId>, user: UserId)
    requires Ok(a) && PartlyClosed(a, drives, shut, broken) && user in drives
    ensures
      var d := drives[user].drive;
      d !in shut && PartlyClosed(a, drives - {user}, shut + {d}, broken)
      && PartlyClosed(a, drives - {user}, shut + {d}, broken + {d})
  {
    hide Ok;
    OthersDiffer(a, user);
  }

  lemma OthersDiffer(a: View, user: UserId)
    requires Ok(a) && user in a.drives
    ensures forall u :: u in a.drives && u != user ==> a.drives[u].drive != a.drives[user].drive
  {
    forall u | u in a.drives && u != user ensures a.drives[u].drive != a.drives[user].drive {
      assert EntryOk(a, u) && EntryOk(a, user);
    }
  }

  /** A request handler holds one release until it hands it over to an asynchronous job or a stream. */
  class VfsHandler {
    const drives: DriveManager
    var release: Option<Token>

    constructor (drives: DriveManager, token: Token)
      ensures this.drives == drives && release == Some(token)
    {
      this.drives, release := drives, Some(token);
    }

    /** takeRelease: whoever takes it is the only one to have it. */
    method TakeRelease() returns (taken: Option<Token>)
      modifies this`release
      ensures taken == old(release) && release == None
    {
      taken := release;
      release := None;
    }

    /** The handler's Close gives the drive back only if nobody has taken over. */
    method Close(now: int)
      requires drives.Valid()
      modifies this`release, drives
      ensures drives.Valid() && release == None
      ensures old(release).None? ==> drives.Now() == old(drives.Now())
      ensures old(release).Some? && old(release).value in old(drives.handed) ==>
        drives.handed == old(drives.handed) - {old(release).value}
    {
      var taken := TakeRelease();
      if taken.Some? { drives.Release(taken.value, now); }
    }

    /** The end of an asynchronous job or of a stream that has taken the release over. */
    method Finish(taken: Option<Token>, now: int)
      requires drives.Valid()
      modifies drives
      ensures drives.Valid() && Advances(old(drives.Now()), drives.Now())
      ensures taken.None? ==> drives.Now() == old(drives.Now())
      ensures taken.Some? && taken.value in old(drives.handed) ==> drives.handed == old(drives.handed) - {taken.value}
    {
      if taken.Some? { drives.Release(taken.value, now); }
    }

    /** asyncExecute: the job runs beside other requests, and its handler is closed before or after it ends. The
        drive stays held until then, and the job gives it back exactly once. `late` is the state at its end. */
    method AsyncExecute(now: int, later: int) returns (ghost late: View)
      requires drives.Valid() && release.Some? && release.value in drives.handed
      modifies this`release, drives
      ensures drives.Valid() && release == None
      ensures Ok(late) && StillHeld(old(drives.Now()), late, old(release).value)
      ensures !late.forced ==> Open(late, late.drives[late.handed[old(release).value]].drive)
      ensures old(release).value !in drives.handed && Advances(late, drives.Now())
    {
      hide Ok, HeldBy, DrivesAfter, ShutAfter, Advances;
      var taken := TakeRelease();
      var early: bool := *;
      if early { Close(now); }
      drives.Interfere(taken.value, now);
      late := drives.Now();
      if !late.forced { HeldStaysOpen(late, taken.value); }
      Finish(taken, later);
      if !early { Close(later); }
    }
  }
}
