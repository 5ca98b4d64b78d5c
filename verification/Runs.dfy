/** Whole runs of a LocalStorage: any sequence of requests, with the process dying and being started again
    anywhere. What has been acknowledged is never lost, and nothing takes effect in part. */
module Runs {
  import opened Paths
  import opened Disk
  import opened Recovery
  import opened RootDirectory
  import opened Namespace
  import opened Store
  import opened Effects
  import opened EntryMaps
  import opened IndexFiles
  import opened Archives
  import opened Restoring
  import opened LocalStorages
  import opened Opening

  datatype Request =
    | CreateFile(value: string, bytes: seq<byte>, now: int)
    | MakeDirectory(value: string, now: int)
    | WriteFile(id: Id, bytes: seq<byte>, now: int)
    | Comment(id: Id, text: string)
    | Remove(id: Id)
    | MoveTo(id: Id, value: string, replace: Option<Id>, now: int)
    | CopyTo(id: Id, value: string, replace: Option<Id>, now: int)
    | LoadArchive(items: seq<Item>)

  /** What recovery leads to: the files and the index. */
  datatype State = State(tree: Tree, ids: Entries)

  ghost predicate Sane(s: State) {
    exists paths :: Consistent(s.tree, s.ids, paths)
  }

  /** The checks of Create and Mkdir passed on the maps of this namespace. */
  ghost predicate Admitted(ids: Entries, value: string, isDir: bool, p: Path) {
    exists paths :: SameEntries(ids, paths) && NewChecked(paths, value, isDir, None, p)
  }

  /** The checks of Move and Copy passed. */
  ghost predicate Agreed(ids: Entries, id: Id, value: string, replace: Option<Id>, d: Destination) {
    id in ids && d.To? && exists paths :: SameEntries(ids, paths) && TransferChecked(paths, ids[id], value, replace, d)
  }

  ghost predicate Adds(a: State, b: State, value: string, m: Meta, node: Node) {
    && m.id !in a.ids && m.path !in a.tree && Admitted(a.ids, value, m.isDir, m.path)
    && b.ids == a.ids[m.id := m] && Committed(a.tree, Put(m.path, node), b.ids, b.tree)
  }

  ghost predicate Changes(a: State, b: State, id: Id, m: Meta, c: Change) {
    id in a.ids && b.ids == a.ids[id := m] && Committed(a.tree, c, b.ids, b.tree)
  }

  /** A copy without an expectation expects the destination to be free. */
  function Expected(replace: Option<Id>): Option<Id> {
    if replace.None? then Some(NIL) else replace
  }

  ghost predicate Transfers(a: State, b: State, id: Id, value: string, replace: Option<Id>, d: Destination,
      copy: bool, now: int) {
    && Agreed(a.ids, id, value, replace, d) && d.dst != []
    && (if copy then
          (exists origin ::
            Numbers(Remaining(a.ids, d.target), a.ids[id], origin) &&
            b.ids == Duplicated(Remaining(a.ids, d.target), a.ids[id], d.dst, now, origin))
        else b.ids == Relocated(Remaining(a.ids, d.target), a.ids[id], d.dst, now))
    && Committed(a.tree, if copy then Duplicate(a.ids[id].path, d.dst) else Relocate(a.ids[id].path, d.dst), b.ids, b.tree)
  }

  /** The complete effect of a request. */
  ghost predicate Effect(q: Request, a: State, b: State) {
    match q
    case CreateFile(value, bytes, now) =>
      exists m: Meta :: m == Meta(m.id, m.path, false, m.name, |bytes|, now, "") && Adds(a, b, value, m, File(Data(bytes)))
    case MakeDirectory(value, now) =>
      exists m: Meta :: m == Meta(m.id, m.path, true, m.name, 0, now, "") && Adds(a, b, value, m, Dir)
    case WriteFile(id, bytes, now) =>
      id in a.ids && Changes(a, b, id, a.ids[id].(size := |bytes|, modified := now), Put(a.ids[id].path, File(Data(bytes))))
    case Comment(id, text) =>
      id in a.ids && Changes(a, b, id, a.ids[id].(comments := text), Nothing)
    case Remove(id) =>
      id in a.ids && b.ids == Deleted(a.ids, a.ids[id]) && Committed(a.tree, Change.Remove(a.ids[id].path), b.ids, b.tree)
    case MoveTo(id, value, replace, now) => exists d :: Transfers(a, b, id, value, replace, d, false, now)
    case CopyTo(id, value, replace, now) =>
      exists d :: Transfers(a, b, id, value, Expected(replace), d, true, now)
    case LoadArchive(items) => exists s :: Restores(items, b.ids, s) && Committed(a.tree, Replace(s), b.ids, b.tree)
  }

  /** Rolling the request back on this tree survives clean-up in any order. */
  ghost predicate Gentle(q: Request, t: Tree) {
    match q
    case WriteFile(_, _, _) => false
    case CopyTo(_, _, replace, _) => replace.None? || replace == Some(NIL)
    case LoadArchive(items) => LoadsApart(items, t)
    case _ => true
  }

  /** On any tree. */
  ghost predicate AlwaysGentle(q: Request) {
    forall t :: Gentle(q, t)
  }

  method Perform(ls: LocalStorage, q: Request) returns (r: Outcome, committed: bool, ghost u: Tree)
    requires ls.Valid() && (ls.root.atomicCleanup || Gentle(q, ls.root.tree))
    modifies ls, ls.root
    ensures ls.Atomic(r, committed, u)
    ensures committed ==> Effect(q, State(old(ls.root.tree), old(ls.ids)), State(u, ls.ids))
  {
    hide Consistent, Recovers, Reopenable, Committed, Restores, Deleted, Transfers, Adds, LoadsApart;
    match q
    case CreateFile(_, _, _) =>
      r, committed, u := PerformNew(ls, q);
    case MakeDirectory(_, _) =>
      r, committed, u := PerformNew(ls, q);
    case WriteFile(id, bytes, now) =>
      r, committed, u := ls.Write(id, bytes, now);
    case Comment(id, text) =>
      r, committed, u := ls.WriteComments(id, text);
    case Remove(id) =>
      r, committed, u := ls.Delete(id);
    case MoveTo(_, _, _, _) =>
      r, committed, u := PerformTransfer(ls, q);
    case CopyTo(_, _, _, _) =>
      r, committed, u := PerformTransfer(ls, q);
    case LoadArchive(items) =>
      r, committed, u := ls.Load(items);
  }

  method PerformNew(ls: LocalStorage, q: Request) returns (r: Outcome, committed: bool, ghost u: Tree)
    requires ls.Valid() && (q.CreateFile? || q.MakeDirectory?)
    modifies ls, ls.root
    ensures ls.Atomic(r, committed, u)
    ensures committed ==> Effect(q, State(old(ls.root.tree), old(ls.ids)), State(u, ls.ids))
  {
    hide Recovers, Reopenable, Committed, NewChecked, NamespaceOk, SameEntries, OnDisk, Indexed, Closed, Named;
    var error, meta;
    if q.CreateFile? {
      r, error, meta, committed, u := ls.Create(q.value, q.bytes, q.now);
      CheckedAdmits(old(ls.ids), old(ls.paths), q.value, false, error, meta.path, committed);
      assert committed ==> Adds(State(old(ls.root.tree), old(ls.ids)), State(u, ls.ids), q.value, meta, File(Data(q.bytes)));
    } else {
      r, error, meta, committed, u := ls.Mkdir(q.value, q.now);
      CheckedAdmits(old(ls.ids), old(ls.paths), q.value, true, error, meta.path, committed);
      assert committed ==> Adds(State(old(ls.root.tree), old(ls.ids)), State(u, ls.ids), q.value, meta, Dir);
    }
  }

  method PerformTransfer(ls: LocalStorage, q: Request) returns (r: Outcome, committed: bool, ghost u: Tree)
    requires ls.Valid() && (q.MoveTo? || q.CopyTo?) && (ls.root.atomicCleanup || Gentle(q, ls.root.tree))
    modifies ls, ls.root
    ensures ls.Atomic(r, committed, u)
    ensures committed ==> Effect(q, State(old(ls.root.tree), old(ls.ids)), State(u, ls.ids))
  {
    hide Recovers, Reopenable, Committed, TransferChecked, NamespaceOk, SameEntries, OnDisk, Indexed, Closed, Named;
    hide Numbers, Relocated, Duplicated;
    var d;
    if q.MoveTo? {
      r, d, committed, u := ls.Move(q.id, q.value, q.replace, q.now);
      assert committed ==>
        Transfers(State(old(ls.root.tree), old(ls.ids)), State(u, ls.ids), q.id, q.value, q.replace, d, false, q.now);
    } else {
      r, d, committed, u := ls.Copy(q.id, q.value, q.replace, q.now);
      assert committed ==>
        Transfers(State(old(ls.root.tree), old(ls.ids)), State(u, ls.ids), q.id, q.value, Expected(q.replace), d, true, q.now);
    }
  }

  lemma CheckedAdmits(ids: Entries, paths: Lookup, value: string, isDir: bool, error: Option<Error>, p: Path,
      committed: bool)
    requires committed ==> error.None? && SameEntries(ids, paths) && NewChecked(paths, value, isDir, error, p)
    ensures committed ==> Admitted(ids, value, isDir, p)
  {
  }

  /** A committed state is the one that recovery leads to, and it is consistent. */
  lemma CommittedSane(t: Tree, atomic: bool, pre: Tree, c: Change, s: State)
    requires Reopenable(t, atomic) && Recovers(t, s.tree, atomic) && Committed(pre, c, s.ids, s.tree)
    ensures Sane(s)
  {
    hide Recovers, NamespaceOk, SameEntries, OnDisk, Closed, Named, Lists;
    var u, ids, paths :| Recovers(t, u, atomic) && Consistent(u, ids, paths);
    RecoversToOne(t, u, atomic);
    RecoversToOne(t, s.tree, atomic);
    var metas :| Lists(metas, s.ids) && s.tree == WithIndex(Changed(pre, c), metas);
    ListsDetermines(metas, ids, s.ids);
  }

  lemma EffectSane(t: Tree, atomic: bool, q: Request, a: State, b: State)
    requires Reopenable(t, atomic) && Recovers(t, b.tree, atomic) && Effect(q, a, b)
    ensures Sane(b)
  {
    hide Recovers, Reopenable, Committed, Numbers, Relocated, Duplicated, Deleted, Restores, Consistent;
    var c: Change :| Committed(a.tree, c, b.ids, b.tree);
    CommittedSane(t, atomic, a.tree, c, b);
  }

  /** The states of a run: each request has had its complete effect or none, and if it was acknowledged it has had
      its effect. */
  ghost predicate Chain(requests: seq<Request>, results: seq<Outcome>, states: seq<State>, n: nat) {
    && n <= |requests| && |results| == n && |states| == n + 1
    && forall i {:trigger requests[i]} :: 0 <= i < n ==> Linked(requests[i], results[i], states[i], states[i + 1])
  }

  ghost predicate Linked(q: Request, r: Outcome, a: State, b: State) {
    (b == a || Effect(q, a, b)) && (r.Done? ==> Effect(q, a, b))
  }

  lemma ChainGrows(requests: seq<Request>, results: seq<Outcome>, states: seq<State>, n: nat, r: Outcome, s: State)
    requires Chain(requests, results, states, n) && n < |requests| && Linked(requests[n], r, states[n], s)
    ensures Chain(requests, results + [r], states + [s], n + 1)
  {
  }

  /** The driver in memory holds the state that recovery leads to, unless it has marked itself as failed. */
  ghost predicate Holds(ls: LocalStorage, s: State)
    reads ls, ls.root
  {
    ls.Valid() && (ls.failed.None? ==> ls.root.tree == s.tree && ls.ids == s.ids)
  }

  /** One request on a live driver. */
  method Step(ls: LocalStorage, q: Request, ghost s: State) returns (r: Outcome, ghost s': State)
    requires Holds(ls, s) && Recovers(ls.root.tree, s.tree, ls.root.atomicCleanup) && Sane(s)
    requires ls.root.atomicCleanup || Gentle(q, ls.root.tree)
    modifies ls, ls.root
    ensures Recovers(ls.root.tree, s'.tree, ls.root.atomicCleanup) && Sane(s') && Linked(q, r, s, s')
    ensures !r.Crashed? ==> Holds(ls, s')
  {
    hide Consistent, Recovers, Effect, Sane, Reopenable, Gentle;
    ghost var before := ls.failed;
    var committed;
    ghost var u;
    r, committed, u := Perform(ls, q);
    s' := if committed then State(u, ls.ids) else s;
    if committed { EffectSane(ls.root.tree, ls.root.atomicCleanup, q, s, s'); }
  }

  /** Any run. Between requests the process may be killed, and it is started again when there is none or when
      the driver has failed; opening may fail too, and then the request is not carried out. On a reliable directory
      that only happens for a name that ends in white space. */
  method Run(root: Root, requests: seq<Request>, ghost start: State)
    returns (results: seq<Outcome>, carried: seq<bool>, ghost states: seq<State>)
    requires Recovers(root.tree, start.tree, root.atomicCleanup) && Sane(start)
    requires root.atomicCleanup || forall i :: 0 <= i < |requests| ==> AlwaysGentle(requests[i])
    modifies root
    ensures Chain(requests, results, states, |requests|) && states[0] == start
    ensures Recovers(root.tree, states[|requests|].tree, root.atomicCleanup) && Sane(states[|requests|])
    ensures |carried| == |requests|
    ensures forall i :: 0 <= i < |requests| && !carried[i] ==> results[i] == Failed(IO) && states[i + 1] == states[i]
    ensures root.reliable ==> forall i :: 0 <= i < |requests| && AllTrimmed(states[i].ids) ==> carried[i]
  {
    hide Consistent, Recovers, Effect, Reopenable, Gentle, AllTrimmed, Sane, Linked;
    results, carried, states := [], [], [start];
    var ls: LocalStorage? := null;
    for n := 0 to |requests|
      invariant Chain(requests, results, states, n) && states[0] == start
      invariant Recovers(root.tree, states[n].tree, root.atomicCleanup) && Sane(states[n])
      invariant ls != null ==> fresh(ls) && ls.root == root && Holds(ls, states[n])
      invariant |carried| == n
      invariant forall i :: 0 <= i < n && !carried[i] ==> results[i] == Failed(IO) && states[i + 1] == states[i]
      invariant root.reliable ==> forall i :: 0 <= i < n && AllTrimmed(states[i].ids) ==> carried[i]
    {
      var r := Failed(IO);
      ghost var s := states[n];
      if * { ls := null; }
      if ls == null || ls.failed.Some? {
        ls := Reopen(root, s);
      }
      var live := ls != null && ls.failed.None?;
      Idle(requests[n], s);
      if ls != null {
        r, s := Step(ls, requests[n], s);
        if r.Crashed? { ls := null; }
      }
      ChainGrows(requests, results, states, n, r, s);
      results, carried, states := results + [r], carried + [live], states + [s];
    }
  }

  /** A request that is not carried out leaves the state. */
  lemma Idle(q: Request, s: State)
    ensures Linked(q, Failed(IO), s, s)
  {
  }

  method Reopen(root: Root, ghost s: State) returns (ls: LocalStorage?)
    requires Recovers(root.tree, s.tree, root.atomicCleanup) && Sane(s)
    modifies root
    ensures Recovers(root.tree, s.tree, root.atomicCleanup)
    ensures ls != null ==> fresh(ls) && ls.root == root && Holds(ls, s) && ls.failed.None?
    ensures root.reliable && AllTrimmed(s.ids) ==> ls != null
  {
    hide Recovers, AllTrimmed;
    ghost var paths :| Consistent(s.tree, s.ids, paths);
    var r, driver := New(root, s.tree, s.ids, paths);
    ls := if r.Done? then driver else null;
  }
}
