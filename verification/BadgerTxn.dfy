/** The bodies of the Badger transactions: gathering subtrees, deleting them, and moving them key by key. */
module BadgerTransactions {
  import opened Paths
  import opened Disk
  import opened Namespace
  import opened RootDirectory
  import opened IndexFiles
  import opened Blobs
  import opened KeyOrder
  import opened BadgerState

  // ----- Gathering -----

  ghost predicate Includes(items: seq<Record>, k: string) {
    exists i :: 0 <= i < |items| && items[i].meta.path == k
  }

  ghost predicate IncludesId(items: seq<Record>, id: Id) {
    exists i :: 0 <= i < |items| && items[i].meta.id == id
  }

  ghost predicate IncludesBlob(items: seq<Record>, b: BlobId) {
    exists i :: 0 <= i < |items| && !items[i].meta.isDir && items[i].blob == b
  }

  /** The items are records of the store, each once. */
  ghost predicate Drawn(files: Files, items: seq<Record>) {
    && (forall i :: 0 <= i < |items| ==> items[i].meta.path in files && files[items[i].meta.path] == items[i])
    && (forall i, j :: 0 <= i < j < |items| ==> items[i].meta.path != items[j].meta.path)
  }

  predicate InTree(root: Record, k: string, r: Record) {
    k == root.meta.path || (root.meta.isDir && root.meta.path <= k && r.meta.id != root.meta.id)
  }

  /** transferItems: the root and, for a directory, every other entry under its path. */
  ghost predicate Gathers(files: Files, root: Record, items: seq<Record>) {
    && Drawn(files, items) && items != [] && items[0] == root
    && (forall k {:trigger Includes(items, k)} :: k in files ==> (Includes(items, k) <==> InTree(root, k, files[k])))
  }

  /** Every entry under a prefix. */
  ghost predicate Under(files: Files, prefix: string, items: seq<Record>) {
    Drawn(files, items) && forall k {:trigger Includes(items, k)} :: k in files ==> (Includes(items, k) <==> prefix <= k)
  }

  ghost predicate KeysMatch(files: Files) {
    forall k :: k in files ==> files[k].meta.path == k
  }

  ghost predicate InKeyOrder(items: seq<Record>) {
    forall i, j :: 0 <= i < j < |items| ==> Before(items[i].meta.path, items[j].meta.path)
  }

  /** One pass of an iterator over a prefix, in key order. */
  method Scan(files: Files, prefix: string) returns (items: seq<Record>)
    requires KeysMatch(files)
    ensures Under(files, prefix, items) && InKeyOrder(items)
  {
    hide Before;
    items := [];
    var todo := files.Keys;
    while todo != {}
      invariant todo <= files.Keys && Drawn(files, items) && InKeyOrder(items)
      invariant forall i :: 0 <= i < |items| ==> items[i].meta.path !in todo && prefix <= items[i].meta.path
      invariant forall i, k :: 0 <= i < |items| && k in todo ==> Before(items[i].meta.path, k)
      invariant forall k {:trigger Includes(items, k)} :: k in files && k !in todo && prefix <= k ==> Includes(items, k)
      decreases |todo|
    {
      FirstExists(todo);
      var k :| k in todo && IsFirst(todo, k);
      todo := todo - {k};
      if prefix <= k {
        IncludesNext(items, files[k]);
        items := items + [files[k]];
      }
    }
  }

  lemma IncludesNext(items: seq<Record>, r: Record)
    ensures forall k {:trigger Includes(items + [r], k)} :: Includes(items + [r], k) <==> Includes(items, k) || k == r.meta.path
    ensures forall id {:trigger IncludesId(items + [r], id)} :: IncludesId(items + [r], id) <==> IncludesId(items, id) || id == r.meta.id
    ensures forall b {:trigger IncludesBlob(items + [r], b)} :: IncludesBlob(items + [r], b) <==> IncludesBlob(items, b) || (!r.meta.isDir && b == r.blob)
  {
    var next := items + [r];
    forall i | 0 <= i < |items| ensures next[i] == items[i] { }
    assert next[|items|] == r;
    forall k ensures Includes(next, k) <==> Includes(items, k) || k == r.meta.path {
      if Includes(items, k) {
        var i :| 0 <= i < |items| && items[i].meta.path == k;
        assert next[i].meta.path == k;
      }
    }
    forall id ensures IncludesId(next, id) <==> IncludesId(items, id) || id == r.meta.id {
      if IncludesId(items, id) {
        var i :| 0 <= i < |items| && items[i].meta.id == id;
        assert next[i].meta.id == id;
      }
    }
    forall b ensures IncludesBlob(next, b) <==> IncludesBlob(items, b) || (!r.meta.isDir && b == r.blob) {
      if IncludesBlob(items, b) {
        var i :| 0 <= i < |items| && !items[i].meta.isDir && items[i].blob == b;
        assert next[i].blob == b;
      }
    }
  }

  /** The same without asking that the root is still there. */
  ghost predicate GathersFrom(files: Files, root: Record, items: seq<Record>) {
    && items != [] && items[0] == root
    && (forall i :: 1 <= i < |items| ==> items[i].meta.path in files && files[items[i].meta.path] == items[i])
    && (forall i, j :: 0 <= i < j < |items| ==> items[i].meta.path != items[j].meta.path)
    && (forall k {:trigger Includes(items, k)} :: k in files ==> (Includes(items, k) <==> InTree(root, k, files[k])))
  }

  /** The items after n of the keys that have been scanned. */
  ghost predicate Gathering(files: Files, root: Record, items: seq<Record>, scanned: seq<Record>) {
    && items != [] && items[0] == root
    && (forall i :: 1 <= i < |items| ==> items[i].meta.path in files && files[items[i].meta.path] == items[i])
    && (forall i, j :: 0 <= i < j < |items| ==> items[i].meta.path != items[j].meta.path)
    && (forall k {:trigger Includes(items, k)} ::
          Includes(items, k) <==> k == root.meta.path || (Includes(scanned, k) && k in files && files[k].meta.id != root.meta.id))
  }

  lemma GatheredFirst(files: Files, root: Record)
    ensures Gathering(files, root, [root], [])
  {
    IncludesNext([], root);
    assert [] + [root] == [root];
  }

  lemma GatheredNext(files: Files, root: Record, items: seq<Record>, scanned: seq<Record>, r: Record)
    requires Gathering(files, root, items, scanned) && !Includes(scanned, r.meta.path)
    requires r.meta.path in files && files[r.meta.path] == r
    requires root.meta.path in files ==> files[root.meta.path].meta.id == root.meta.id
    ensures Gathering(files, root, if r.meta.id == root.meta.id then items else items + [r], scanned + [r])
  {
    IncludesNext(scanned, r);
    if r.meta.id != root.meta.id {
      assert !Includes(items, r.meta.path);
      IncludesNext(items, r);
    }
  }

  method TransferItems(files: Files, root: Record) returns (items: seq<Record>)
    requires KeysMatch(files) && (root.meta.path in files ==> files[root.meta.path].meta.id == root.meta.id)
    ensures GathersFrom(files, root, items)
    ensures root.meta.path in files && files[root.meta.path] == root ==> Gathers(files, root, items)
  {
    hide InKeyOrder, Before;
    items := [root];
    GatheredFirst(files, root);
    if !root.meta.isDir { return; }
    var scanned := Scan(files, root.meta.path);
    for n := 0 to |scanned|
      invariant Gathering(files, root, items, scanned[..n])
    {
      assert scanned[..n + 1] == scanned[..n] + [scanned[n]];
      NotYet(scanned, n);
      GatheredNext(files, root, items, scanned[..n], scanned[n]);
      if scanned[n].meta.id != root.meta.id {
        items := items + [scanned[n]];
      }
    }
    assert scanned[..|scanned|] == scanned;
  }

  lemma NotYet(items: seq<Record>, n: nat)
    requires n < |items| && forall i, j :: 0 <= i < j < |items| ==> items[i].meta.path != items[j].meta.path
    ensures !Includes(items[..n], items[n].meta.path)
  {
  }

  // ----- Deleting -----

  ghost predicate ErasedAt(t: Db, items: seq<Record>, r: Db, k: string) {
    (k in r.files <==> k in t.files && !Includes(items, k)) && (k in r.files ==> r.files[k] == t.files[k])
  }

  ghost predicate UnindexedAt(t: Db, items: seq<Record>, r: Db, id: Id) {
    (id in r.index <==> id in t.index && !IncludesId(items, id)) && (id in r.index ==> r.index[id] == t.index[id])
  }

  ghost predicate UnchunkedAt(t: Db, items: seq<Record>, r: Db, key: ChunkKey) {
    (key in r.chunks <==> key in t.chunks && !IncludesBlob(items, key.blob)) && (key in r.chunks ==> r.chunks[key] == t.chunks[key])
  }

  /** The store without the items, their index keys and, for files, their chunks. */
  ghost predicate Erased(t: Db, items: seq<Record>, r: Db) {
    && (forall k {:trigger ErasedAt(t, items, r, k)} :: ErasedAt(t, items, r, k))
    && (forall id {:trigger UnindexedAt(t, items, r, id)} :: UnindexedAt(t, items, r, id))
    && (forall key {:trigger UnchunkedAt(t, items, r, key)} :: UnchunkedAt(t, items, r, key))
  }

  function DeleteOne(t: Db, r: Record): Db {
    Db(t.files - {r.meta.path}, t.index - {r.meta.id}, if r.meta.isDir then t.chunks else WithoutBlobs(t.chunks, {r.blob}))
  }

  lemma EraseNext(t: Db, items: seq<Record>, r: Db, item: Record)
    requires Erased(t, items, r)
    ensures Erased(t, items + [item], DeleteOne(r, item))
  {
    IncludesNext(items, item);
    var next, r' := items + [item], DeleteOne(r, item);
    forall k ensures ErasedAt(t, next, r', k) {
      assert ErasedAt(t, items, r, k) && (Includes(next, k) || !Includes(next, k));
    }
    forall id ensures UnindexedAt(t, next, r', id) {
      assert UnindexedAt(t, items, r, id) && (IncludesId(next, id) || !IncludesId(next, id));
    }
    forall key ensures UnchunkedAt(t, next, r', key) {
      assert UnchunkedAt(t, items, r, key) && (IncludesBlob(next, key.blob) || !IncludesBlob(next, key.blob));
    }
  }

  /** deleteItems */
  method DeleteItems(t: Db, items: seq<Record>) returns (r: Db)
    ensures Erased(t, items, r)
  {
    r := t;
    NothingErased(t);
    assert items[..0] == [];
    for n := 0 to |items|
      invariant Erased(t, items[..n], r)
    {
      EraseNext(t, items[..n], r, items[n]);
      assert items[..n + 1] == items[..n] + [items[n]];
      r := DeleteOne(r, items[n]);
    }
    assert items[..|items|] == items;
  }

  lemma NothingErased(t: Db)
    ensures Erased(t, [], t)
  {
    forall k ensures ErasedAt(t, [], t, k) { }
    forall id ensures UnindexedAt(t, [], t, id) { }
    forall key ensures UnchunkedAt(t, [], t, key) { }
  }

  // ----- Safety of deleting and moving -----

  /** A transaction that publishes nothing: chunks of published blobs may vanish, no blob is taken into use. */
  ghost predicate Shrinks(a: Db, b: Db, published: set<BlobId>) {
    && (forall key: ChunkKey {:trigger OnlyVanished(a.chunks, b.chunks, key)} :: OnlyVanished(a.chunks, b.chunks, key))
    && (forall key: ChunkKey {:trigger SameChunk(a.chunks, b.chunks, key)} :: key.blob !in published ==> SameChunk(a.chunks, b.chunks, key))
    && (forall x {:trigger References(b.files, x)} :: References(b.files, x) ==> References(a.files, x))
  }

  lemma ShrinksTransitive(a: Db, b: Db, c: Db, published: set<BlobId>)
    requires Shrinks(a, b, published) && Shrinks(b, c, published)
    ensures Shrinks(a, c, published)
  {
    forall key: ChunkKey
      ensures OnlyVanished(a.chunks, c.chunks, key)
      ensures key.blob !in published ==> SameChunk(a.chunks, c.chunks, key)
    {
      assert OnlyVanished(a.chunks, b.chunks, key) && OnlyVanished(b.chunks, c.chunks, key);
      if key.blob !in published { assert SameChunk(a.chunks, b.chunks, key) && SameChunk(b.chunks, c.chunks, key); }
    }
    forall x | References(c.files, x) ensures References(a.files, x) {
      assert References(b.files, x);
    }
  }

  lemma ShrinksIsStep(a: Db, b: Db, published: set<BlobId>, own: set<BlobId>)
    requires Shrinks(a, b, published) && own !! published
    ensures Step(a, published, b, published, own)
  {
  }

  lemma EraseSafe(t: Db, published: set<BlobId>, lost: set<BlobId>, items: seq<Record>, r: Db)
    requires Safe(t, published, lost) && Drawn(t.files, items) && Erased(t, items, r)
    ensures Safe(r, published, lost) && Shrinks(t, r, published)
  {
    forall k ensures Kept(r, published, lost, k) {
      assert Kept(t, published, lost, k) && ErasedAt(t, items, r, k);
      if k in r.files && !r.files[k].meta.isDir {
        SurvivorOwnsItsBlob(t, published, lost, items, k);
        forall i: nat ensures SameChunk(t.chunks, r.chunks, ChunkKey(r.files[k].blob, i)) {
          assert UnchunkedAt(t, items, r, ChunkKey(r.files[k].blob, i));
        }
        HeldUnlessTouched(t.chunks, r.chunks, lost, r.files[k]);
      }
    }
    forall j, k ensures Separate(r.files, j, k) {
      assert Separate(t.files, j, k) && ErasedAt(t, items, r, j) && ErasedAt(t, items, r, k);
    }
    forall key: ChunkKey
      ensures OnlyVanished(t.chunks, r.chunks, key)
      ensures key.blob !in published ==> SameChunk(t.chunks, r.chunks, key)
    {
      assert UnchunkedAt(t, items, r, key);
      if IncludesBlob(items, key.blob) {
        var i :| 0 <= i < |items| && !items[i].meta.isDir && items[i].blob == key.blob;
        assert Kept(t, published, lost, items[i].meta.path);
      }
    }
    forall x | References(r.files, x) ensures References(t.files, x) {
      var k :| k in r.files && !r.files[k].meta.isDir && r.files[k].blob == x;
      assert ErasedAt(t, items, r, k);
    }
  }

  lemma SurvivorOwnsItsBlob(t: Db, published: set<BlobId>, lost: set<BlobId>, items: seq<Record>, k: string)
    requires Safe(t, published, lost) && Drawn(t.files, items) && k in t.files && !t.files[k].meta.isDir && !Includes(items, k)
    ensures !IncludesBlob(items, t.files[k].blob)
  {
    forall i | 0 <= i < |items| && !items[i].meta.isDir ensures items[i].blob != t.files[k].blob {
      assert items[i].meta.path != k by { assert Includes(items, items[i].meta.path); }
      assert Separate(t.files, items[i].meta.path, k);
    }
  }

  /** What is left is still found by its ID. */
  lemma EraseFindable(t: Db, items: seq<Record>, r: Db)
    requires Findable(t) && Drawn(t.files, items) && Erased(t, items, r)
    ensures Findable(r)
  {
    forall k ensures FindableAt(r, k) {
      assert ErasedAt(t, items, r, k) && FindableAt(t, k);
      if k in r.files {
        var id := t.files[k].meta.id;
        if IncludesId(items, id) {
          var i :| 0 <= i < |items| && items[i].meta.id == id;
          IdsDiffer(t, k, items[i].meta.path);
        }
        assert UnindexedAt(t, items, r, id);
      }
    }
  }

  // ----- Moving -----

  function MovedRecord(r: Record, newPath: string, now: int): Record {
    r.(meta := r.meta.(path := newPath, name := BaseName(newPath), modified := now))
  }

  /** filepath.Base */
  function BaseName(s: string): string {
    if s == "" then "." else LastPart(Split(s))
  }

  function LastPart(parts: seq<string>): string {
    if parts == [] then "/"
    else if parts[|parts| - 1] != "" then parts[|parts| - 1]
    else LastPart(parts[..|parts| - 1])
  }

  /** What filepath.Base does with any path: slashes at its end go, and then everything up to the last slash. */
  lemma BaseNameIs(s: string, n: string)
    requires n != "" && '/' !in n
    ensures BaseName("") == "." && BaseName("/") == "/"
    ensures s != "" ==> BaseName(s + "/") == BaseName(s)
    ensures BaseName(n) == n && BaseName(s + "/" + n) == n
  {
    assert "/"[1..] == "" && Split("/") == ["", ""] && ["", ""][..1] == [""] && [""][..0] == [];
    assert LastPart([""]) == "/";
    hide Split;
    SplitTrailingSlash(s);
    SplitOne(n);
    SplitConcat(s, n);
    assert (Split(s) + [""])[..|Split(s)|] == Split(s);
  }

  /** moveItem */
  function MoveItem(t: Db, r: Record, newPath: string, now: int): Db {
    Db((t.files - {r.meta.path})[newPath := MovedRecord(r, newPath, now)], t.index[r.meta.id := newPath], t.chunks)
  }

  /** A record gathered earlier may be put back: its blob is used nowhere but at its own key. */
  ghost predicate Movable(t: Db, published: set<BlobId>, lost: set<BlobId>, r: Record) {
    !r.meta.isDir ==>
      && r.blob in published && HasOrLost(t.chunks, lost, r) && Representable(r.meta.size)
      && forall k :: k in t.files && !t.files[k].meta.isDir && t.files[k].blob == r.blob ==> k == r.meta.path
  }

  lemma MoveItemSafe(t: Db, published: set<BlobId>, lost: set<BlobId>, r: Record, newPath: string, now: int)
    requires Safe(t, published, lost) && Movable(t, published, lost, r)
    ensures Safe(MoveItem(t, r, newPath, now), published, lost)
  {
    hide BaseName;
    var t' := MoveItem(t, r, newPath, now);
    var moved := MovedRecord(r, newPath, now);
    assert Whole(t.chunks, r) ==> Whole(t.chunks, moved) by { SameSizeSameBlob(t.chunks, r, moved); }
    assert HasOrLost(t.chunks, lost, r) ==> HasOrLost(t.chunks, lost, moved);
    forall k ensures Kept(t', published, lost, k) {
      assert Kept(t, published, lost, k);
    }
    forall j, k ensures Separate(t'.files, j, k) {
      assert Separate(t.files, j, k);
    }
  }

  lemma SameSizeSameBlob(chunks: Chunks, a: Record, b: Record)
    requires a.meta.size == b.meta.size && a.blob == b.blob
    ensures Whole(chunks, a) <==> Whole(chunks, b)
  {
    if Whole(chunks, a) {
      var content :| |content| == a.meta.size && Complete(chunks, a.blob, content);
      assert |content| == b.meta.size && Complete(chunks, b.blob, content);
    }
    if Whole(chunks, b) {
      var content :| |content| == b.meta.size && Complete(chunks, b.blob, content);
      assert |content| == a.meta.size && Complete(chunks, a.blob, content);
    }
  }

  /** Moving one record leaves the others movable. */
  lemma OthersMovable(t: Db, published: set<BlobId>, lost: set<BlobId>, r: Record, newPath: string, now: int, other: Record)
    requires Movable(t, published, lost, r) && Movable(t, published, lost, other)
    requires !r.meta.isDir && !other.meta.isDir ==> r.blob != other.blob
    ensures Movable(MoveItem(t, r, newPath, now), published, lost, other)
  {
    hide BaseName;
  }

  lemma DrawnMovable(t: Db, published: set<BlobId>, lost: set<BlobId>, items: seq<Record>)
    requires Safe(t, published, lost) && Drawn(t.files, items)
    ensures forall i :: 0 <= i < |items| ==> Movable(t, published, lost, items[i])
    ensures forall i, j :: 0 <= i < j < |items| && !items[i].meta.isDir && !items[j].meta.isDir ==> items[i].blob != items[j].blob
  {
    forall i | 0 <= i < |items| ensures Movable(t, published, lost, items[i]) {
      assert Kept(t, published, lost, items[i].meta.path);
      forall k | k in t.files && !t.files[k].meta.isDir && !items[i].meta.isDir && t.files[k].blob == items[i].blob
        ensures k == items[i].meta.path
      {
        assert Separate(t.files, k, items[i].meta.path);
      }
    }
    forall i, j | 0 <= i < j < |items| && !items[i].meta.isDir && !items[j].meta.isDir ensures items[i].blob != items[j].blob {
      assert Separate(t.files, items[i].meta.path, items[j].meta.path);
    }
  }

  lemma MoveItemShrinks(t: Db, published: set<BlobId>, r: Record, newPath: string, now: int, a: Db)
    requires Shrinks(a, t, published) && t.chunks == a.chunks && (!r.meta.isDir ==> References(a.files, r.blob))
    ensures Shrinks(a, MoveItem(t, r, newPath, now), published)
  {
    hide BaseName;
    var t' := MoveItem(t, r, newPath, now);
    forall key: ChunkKey
      ensures OnlyVanished(a.chunks, t'.chunks, key)
      ensures key.blob !in published ==> SameChunk(a.chunks, t'.chunks, key)
    {
    }
    forall x | References(t'.files, x) ensures References(a.files, x) {
      var k :| k in t'.files && !t'.files[k].meta.isDir && t'.files[k].blob == x;
      if k != newPath { assert References(t.files, x); }
    }
  }

  // ----- Looking up -----

  /** findMetaItemByID */
  function FindById(t: Db, id: Id): Option<Record> {
    if id in t.index && t.index[id] in t.files then Some(t.files[t.index[id]]) else None
  }

  /** findByPath */
  function FindByPath(files: Files, path: string): Option<Record> {
    if path == "/" then None
    else if path in files then Some(files[path])
    else if path + "/" in files then Some(files[path + "/"])
    else None
  }

  function TrimSlash(s: string): string {
    if s != "" && s[|s| - 1] == '/' then s[..|s| - 1] else s
  }

  function WithSlash(s: string): string {
    if s != "" && s[|s| - 1] == '/' then s else s + "/"
  }

  function RecordId(r: Option<Record>): Option<Id> {
    match r case None => None case Some(x) => Some(x.meta.id)
  }

  // ----- Replacing the target -----

  /** What a transfer has put out of its way. */
  ghost predicate Cleared(t: Db, target: Option<Record>, victims: seq<Record>, r: Db) {
    Erased(t, victims, r) &&
    match target
    case None => victims == []
    case Some(x) => Gathers(t.files, x, victims)
  }

  /** prepareTransfer */
  method PrepareTransfer(t: Db, dst: string, replace: Option<Id>) returns (ok: bool, victims: seq<Record>, r: Db)
    requires KeysMatch(t.files)
    ensures ok <==> CheckReplacement(RecordId(FindByPath(t.files, TrimSlash(dst))), replace)
    ensures ok ==> Cleared(t, FindByPath(t.files, TrimSlash(dst)), victims, r)
  {
    var target := FindByPath(t.files, TrimSlash(dst));
    ok, victims, r := CheckReplacement(RecordId(target), replace), [], t;
    NothingErased(t);
    if ok && target.Some? {
      victims := TransferItems(t.files, target.value);
      r := DeleteItems(t, victims);
    }
  }

  lemma ClearedSafe(t: Db, published: set<BlobId>, lost: set<BlobId>, target: Option<Record>, victims: seq<Record>, r: Db)
    requires Safe(t, published, lost) && Cleared(t, target, victims, r)
    ensures Safe(r, published, lost) && Shrinks(t, r, published) && Drawn(t.files, victims)
  {
    EraseSafe(t, published, lost, victims, r);
  }

  // ----- moveChildren -----

  /** path.Clean of a rooted path. */
  function CleanString(s: string): string {
    Stored(Clean(Split(s)), false)
  }

  /** filepath.Join of the destination and the path below the source, with the slash of a directory. */
  function ChildPath(r: Record, prefix: string, dst: string): string {
    var rel := if prefix <= r.meta.path then r.meta.path[|prefix|..] else r.meta.path;
    var joined := CleanString(dst + "/" + rel);
    if r.meta.isDir then WithSlash(joined) else joined
  }

  function MoveAll(t: Db, items: seq<Record>, n: nat, prefix: string, dst: string, now: int): Db
    requires n <= |items|
  {
    if n == 0 then t
    else MoveItem(MoveAll(t, items, n - 1, prefix, dst, now), items[n - 1], ChildPath(items[n - 1], prefix, dst), now)
  }

  method MoveChildren(t: Db, src: string, dst: string, now: int) returns (r: Db, children: seq<Record>)
    requires KeysMatch(t.files)
    ensures Under(t.files, WithSlash(src), children) && InKeyOrder(children)
    ensures r == MoveAll(t, children, |children|, WithSlash(src), dst, now)
  {
    hide ChildPath, BaseName;
    children := Scan(t.files, WithSlash(src));
    r := t;
    for n := 0 to |children|
      invariant r == MoveAll(t, children, n, WithSlash(src), dst, now)
    {
      r := MoveItem(r, children[n], ChildPath(children[n], WithSlash(src), dst), now);
    }
  }

  lemma {:induction false} MoveAllSafe(t: Db, published: set<BlobId>, lost: set<BlobId>, items: seq<Record>, n: nat, prefix: string,
      dst: string, now: int)
    requires Safe(t, published, lost) && Drawn(t.files, items) && n <= |items|
    ensures
      var r := MoveAll(t, items, n, prefix, dst, now);
      Safe(r, published, lost) && Shrinks(t, r, published) && r.chunks == t.chunks &&
      forall i :: n <= i < |items| ==> Movable(r, published, lost, items[i])
    decreases n
  {
    hide ChildPath, BaseName;
    DrawnMovable(t, published, lost, items);
    if n > 0 {
      var j: nat := n - 1;
      MoveAllSafe(t, published, lost, items, j, prefix, dst, now);
      var r, path := MoveAll(t, items, j, prefix, dst, now), ChildPath(items[j], prefix, dst);
      MoveItemSafe(r, published, lost, items[j], path, now);
      assert !items[j].meta.isDir ==> References(t.files, items[j].blob);
      MoveItemShrinks(r, published, items[j], path, now, t);
      forall i | n <= i < |items| ensures Movable(MoveItem(r, items[j], path, now), published, lost, items[i]) {
        OthersMovable(r, published, lost, items[j], path, now, items[i]);
      }
    }
  }

  // ----- The body of Move -----

  datatype Moving = Moving(src: Record, dst: string, victims: seq<Record>, children: seq<Record>)

  /** The record at k is in the subtree that a transfer to dst replaces. */
  predicate Replaced(files: Files, dst: string, k: string) {
    var target := FindByPath(files, TrimSlash(dst));
    k in files && target.Some? && InTree(target.value, k, files[k])
  }

  /** The source is a file with data, and its data goes with what it replaces. */
  predicate Swallowed(files: Files, src: Record, dst: string) {
    !src.meta.isDir && src.meta.size > 0 && Replaced(files, dst, src.meta.path)
  }

  /** What the body of Move computes from the transaction's view: the destination that the value names, if the
      checks pass, and the move to it. */
  ghost predicate Moves(t: Db, id: Id, value: string, replace: Option<Id>, now: int, m: Moving, r: Db) {
    && MovesTo(t, id, now, m, r)
    && TransferPath(Clean(Split(m.src.meta.path)), m.src.meta.isDir, value).Some?
    && m.dst == Stored(TransferPath(Clean(Split(m.src.meta.path)), m.src.meta.isDir, value).value, m.src.meta.isDir)
    && CheckReplacement(RecordId(FindByPath(t.files, TrimSlash(m.dst))), replace)
  }

  ghost predicate MovesTo(t: Db, id: Id, now: int, m: Moving, r: Db) {
    FindById(t, id) == Some(m.src) && exists t1 :: MovesVia(t, now, m, t1, r)
  }

  ghost predicate MovesVia(t: Db, now: int, m: Moving, t1: Db, r: Db) {
    Cleared(t, FindByPath(t.files, TrimSlash(m.dst)), m.victims, t1) &&
    var t2 := MoveItem(t1, m.src, m.dst, now);
    if m.src.meta.isDir then
      Under(t2.files, WithSlash(m.src.meta.path), m.children) && InKeyOrder(m.children) &&
      r == MoveAll(t2, m.children, |m.children|, WithSlash(m.src.meta.path), m.dst, now)
    else m.children == [] && r == t2
  }

  /** Why Move or Copy refuses, if it does. */
  function TransferRefusal(t: Db, id: Id, value: string, replace: Option<Id>): Option<Error> {
    match FindById(t, id)
    case None => Some(NotFound)
    case Some(src) =>
      match TransferPath(Clean(Split(src.meta.path)), src.meta.isDir, value)
      case None => Some(InvalidPath)
      case Some(p) =>
        if CheckReplacement(RecordId(FindByPath(t.files, TrimSlash(Stored(p, src.meta.isDir)))), replace) then None
        else Some(AlreadyExists)
  }

  function Verdict(refusal: Option<Error>): Outcome {
    match refusal case None => Done case Some(e) => Failed(e)
  }

  /** The closure of Move. */
  method MoveBody(t: Db, id: Id, value: string, replace: Option<Id>, now: int)
    returns (r: Outcome, next: Db, ghost m: Moving)
    requires KeysMatch(t.files)
    ensures r == Verdict(TransferRefusal(t, id, value, replace))
    ensures r.Done? ==> Moves(t, id, value, replace, now, m, next)
    ensures r.Failed? ==> next == t
  {
    hide TransferPath, Clean, Split, BaseName, ChildPath, Stored;
    next, m := t, Moving(Record(Row(0, "", true, "", 0, 0, ""), 0), "", [], []);
    var found := FindById(t, id);
    if found.None? { return Failed(NotFound), next, m; }
    var src := found.value;
    var path := TransferPath(Clean(Split(src.meta.path)), src.meta.isDir, value);
    if path.None? { return Failed(InvalidPath), next, m; }
    var dst := Stored(path.value, src.meta.isDir);
    var ok, victims, t1 := PrepareTransfer(t, dst, replace);
    if !ok { return Failed(AlreadyExists), next, m; }
    var t2 := MoveItem(t1, src, dst, now);
    var children := [];
    next := t2;
    if src.meta.isDir {
      ClearedMatches(t, FindByPath(t.files, TrimSlash(dst)), victims, t1, src, dst, now);
      next, children := MoveChildren(t2, src.meta.path, dst, now);
    }
    m := Moving(src, dst, victims, children);
    assert MovesVia(t, now, m, t1, next);
    r := Done;
  }

  lemma ClearedMatches(t: Db, target: Option<Record>, victims: seq<Record>, t1: Db, src: Record, dst: string, now: int)
    requires KeysMatch(t.files) && Cleared(t, target, victims, t1)
    ensures KeysMatch(MoveItem(t1, src, dst, now).files)
  {
    hide BaseName;
    forall k | k in t1.files ensures t1.files[k].meta.path == k {
      assert ErasedAt(t, victims, t1, k);
    }
  }

  /** The blobs that are lost after a move. */
  function LostBy(files: Files, src: Record, dst: string, lost: set<BlobId>): set<BlobId> {
    if Swallowed(files, src, dst) then lost + {src.blob} else lost
  }

  /** A move leaves no further file without its data exactly if the source is no file with data in the subtree that
      it replaces; otherwise it is the source that lacks its data from then on. In either case others can live with
      it: chunks at most vanish and no blob is used again. What else a move can lose is the subject of BadgerMoves. */
  lemma MoveSafeIff(t: Db, published: set<BlobId>, lost: set<BlobId>, id: Id, now: int, m: Moving, r: Db)
    requires Safe(t, published, lost) && MovesTo(t, id, now, m, r)
    ensures Safe(r, published, lost) <==> !Swallowed(t.files, m.src, m.dst) || m.src.blob in lost
    ensures Safe(r, published, LostBy(t.files, m.src, m.dst, lost)) && Shrinks(t, r, published)
  {
    hide TransferPath, Clean, Split, BaseName, ChildPath, Stored, MoveAll, HasOrLost;
    var t1 :| MovesVia(t, now, m, t1, r);
    ClearedSafe(t, published, lost, FindByPath(t.files, TrimSlash(m.dst)), m.victims, t1);
    assert Kept(t, published, lost, t.index[id]);
    var t2, lost' := MoveItem(t1, m.src, m.dst, now), LostBy(t.files, m.src, m.dst, lost);
    VictimsAreReplaced(t, m.dst, m.victims, t1, m.src.meta.path);
    if Swallowed(t.files, m.src, m.dst) {
      NobodysBlob(t, published, lost, m, t1);
      if m.src.blob !in lost { LostData(t, published, lost, m, t1, t2, now); }
    }
    SourceMovable(t, published, lost, lost', m, t1);
    MoveItemSafe(t1, published, lost', m.src, m.dst, now);
    assert !m.src.meta.isDir ==> References(t.files, m.src.blob);
    SourceShrinks(t, published, t1, m.src, m.dst, now);
    if m.src.meta.isDir {
      MoveAllSafe(t2, published, lost', m.children, |m.children|, WithSlash(m.src.meta.path), m.dst, now);
      ShrinksTransitive(t, t2, r, published);
    }
    assert m.src.blob in lost ==> lost' == lost;
  }

  /** Once the source has been deleted with what is replaced, no file has its blob. */
  lemma NobodysBlob(t: Db, published: set<BlobId>, lost: set<BlobId>, m: Moving, t1: Db)
    requires Safe(t, published, lost) && Erased(t, m.victims, t1) && Safe(t1, published, lost)
    requires m.src.meta.path in t.files && t.files[m.src.meta.path] == m.src && !m.src.meta.isDir
    requires Includes(m.victims, m.src.meta.path)
    ensures Safe(t1, published, lost + {m.src.blob})
  {
    assert Kept(t, published, lost, m.src.meta.path);
    var more := lost + {m.src.blob};
    forall k ensures Kept(t1, published, more, k) {
      assert Kept(t1, published, lost, k) && ErasedAt(t, m.victims, t1, k) && Separate(t.files, k, m.src.meta.path);
    }
    assert more <= published;
  }

  lemma VictimsAreReplaced(t: Db, dst: string, victims: seq<Record>, t1: Db, k: string)
    requires Cleared(t, FindByPath(t.files, TrimSlash(dst)), victims, t1) && k in t.files
    ensures Includes(victims, k) <==> Replaced(t.files, dst, k)
  {
  }

  lemma SourceShrinks(t: Db, published: set<BlobId>, t1: Db, src: Record, dst: string, now: int)
    requires Shrinks(t, t1, published) && (!src.meta.isDir ==> References(t.files, src.blob))
    ensures Shrinks(t, MoveItem(t1, src, dst, now), published)
  {
    hide BaseName;
    var t2 := MoveItem(t1, src, dst, now);
    forall x | References(t2.files, x) ensures References(t.files, x) {
      var k :| k in t2.files && !t2.files[k].meta.isDir && t2.files[k].blob == x;
      if k != dst { assert References(t1.files, x); }
    }
    forall key: ChunkKey
      ensures OnlyVanished(t.chunks, t2.chunks, key)
      ensures key.blob !in published ==> SameChunk(t.chunks, t2.chunks, key)
    {
      assert OnlyVanished(t.chunks, t1.chunks, key) && (key.blob !in published ==> SameChunk(t.chunks, t1.chunks, key));
    }
  }

  lemma SourceMovable(t: Db, published: set<BlobId>, lost: set<BlobId>, lost': set<BlobId>, m: Moving, t1: Db)
    requires Safe(t, published, lost) && Drawn(t.files, m.victims) && Erased(t, m.victims, t1) && Safe(t1, published, lost')
    requires m.src.meta.path in t.files && t.files[m.src.meta.path] == m.src
    requires lost' == if !m.src.meta.isDir && m.src.meta.size > 0 && Includes(m.victims, m.src.meta.path) then lost + {m.src.blob} else lost
    ensures Movable(t1, published, lost', m.src)
  {
    var p := m.src.meta.path;
    assert Kept(t, published, lost, p) && ErasedAt(t, m.victims, t1, p);
    if !m.src.meta.isDir {
      forall k | k in t1.files && !t1.files[k].meta.isDir && t1.files[k].blob == m.src.blob ensures k == p {
        assert ErasedAt(t, m.victims, t1, k) && Separate(t.files, k, p);
      }
      if Includes(m.victims, p) {
        VictimHasNoChunks(t, m.victims, t1, p);
        if m.src.blob !in lost' { AbsentIsEmpty(t1.chunks, m.src.blob); }
      } else {
        assert Kept(t1, published, lost', p);
      }
    }
  }

  /** Without chunks there is the empty content. */
  lemma AbsentIsEmpty(chunks: Chunks, blob: BlobId)
    requires Absent(chunks, blob)
    ensures Complete(chunks, blob, [])
  {
    forall i: nat ensures ChunkFits(chunks, blob, [], i) {
      assert !ChunkThere(chunks, blob, i);
    }
  }

  lemma VictimHasNoChunks(t: Db, victims: seq<Record>, t1: Db, p: string)
    requires Drawn(t.files, victims) && Erased(t, victims, t1) && Includes(victims, p) && !t.files[p].meta.isDir
    ensures Absent(t1.chunks, t.files[p].blob)
  {
    var v :| 0 <= v < |victims| && victims[v].meta.path == p;
    assert victims[v] == t.files[p];
    assert IncludesBlob(victims, t.files[p].blob);
    forall i: nat ensures !ChunkThere(t1.chunks, t.files[p].blob, i) {
      assert UnchunkedAt(t, victims, t1, ChunkKey(t.files[p].blob, i));
    }
  }

  lemma LostData(t: Db, published: set<BlobId>, lost: set<BlobId>, m: Moving, t1: Db, t2: Db, now: int)
    requires Drawn(t.files, m.victims) && Erased(t, m.victims, t1)
    requires !m.src.meta.isDir && m.src.meta.size > 0 && Includes(m.victims, m.src.meta.path) && m.src.blob !in lost
    requires m.src.meta.path in t.files && t.files[m.src.meta.path] == m.src && t2 == MoveItem(t1, m.src, m.dst, now)
    ensures !Safe(t2, published, lost)
  {
    hide BaseName;
    VictimHasNoChunks(t, m.victims, t1, m.src.meta.path);
    var r := t2.files[m.dst];
    forall content: seq<byte> | |content| == r.meta.size ensures !Complete(t2.chunks, r.blob, content) {
      assert 0 < ChunkCount(|content|) && !ChunkThere(t1.chunks, r.blob, 0);
      assert !ChunkThere(t2.chunks, r.blob, 0);
    }
    assert !Kept(t2, published, lost, m.dst);
  }

  lemma {:induction false} MoveAllKeepsChunks(t: Db, items: seq<Record>, n: nat, prefix: string, dst: string, now: int)
    requires n <= |items|
    ensures MoveAll(t, items, n, prefix, dst, now).chunks == t.chunks
    decreases n
  {
    hide ChildPath, BaseName;
    if n > 0 { MoveAllKeepsChunks(t, items, n - 1, prefix, dst, now); }
  }

  lemma MoveKeepsChunks(t: Db, id: Id, now: int, m: Moving, r: Db)
    requires MovesTo(t, id, now, m, r)
    ensures forall key: ChunkKey {:trigger OnlyVanished(t.chunks, r.chunks, key)} :: OnlyVanished(t.chunks, r.chunks, key)
  {
    hide TransferPath, Clean, Split, BaseName, ChildPath, Stored, MoveAll;
    var t1 :| MovesVia(t, now, m, t1, r);
    if m.src.meta.isDir {
      MoveAllKeepsChunks(MoveItem(t1, m.src, m.dst, now), m.children, |m.children|, WithSlash(m.src.meta.path), m.dst, now);
    }
    forall key: ChunkKey ensures OnlyVanished(t.chunks, r.chunks, key) {
      assert UnchunkedAt(t, m.victims, t1, key);
    }
  }

  // ----- Copying -----

  function AddRecord(t: Db, r: Record): Db {
    Db(t.files[r.meta.path := r], t.index[r.meta.id := r.meta.path], t.chunks)
  }

  lemma AddFindable(t: Db, r: Record)
    requires Findable(t) && r.meta.id !in t.index
    ensures Findable(AddRecord(t, r))
  {
    forall k ensures FindableAt(AddRecord(t, r), k) { assert FindableAt(t, k); }
  }

  function AddAll(t: Db, records: seq<Record>, n: nat): Db
    requires n <= |records|
  {
    if n == 0 then t else AddRecord(AddAll(t, records, n - 1), records[n - 1])
  }

  /** The destination followed by the path below the source. */
  function CopyKey(src: string, dst: string, k: string): string {
    dst + (if src <= k then k[|src|..] else k)
  }

  function CopyRecord(original: Record, src: string, dst: string, now: int, id: Id, blob: BlobId): Record {
    var path := CopyKey(src, dst, original.meta.path);
    Record(original.meta.(id := id, path := path, name := BaseName(path), modified := now), blob)
  }

  /** The copy's blob holds what the original's blob held. */
  ghost predicate SameData(a: Chunks, original: Record, b: Chunks, copy: Record) {
    exists content :: |content| == original.meta.size == copy.meta.size &&
      Complete(a, original.blob, content) && Complete(b, copy.blob, content)
  }

  /** The blob holds what the item's blob held. */
  ghost predicate Transcribed(a: Chunks, item: Record, b: Chunks, blob: BlobId) {
    exists content :: HasData(a, item, b, blob, content)
  }

  ghost predicate HasData(a: Chunks, item: Record, b: Chunks, blob: BlobId, content: seq<byte>) {
    |content| == item.meta.size && Representable(|content|) && Complete(a, item.blob, content) && Complete(b, blob, content)
  }

  lemma SameDataIsWhole(a: Chunks, original: Record, b: Chunks, copy: Record)
    requires SameData(a, original, b, copy)
    ensures Whole(b, copy)
  {
    var content :| |content| == original.meta.size == copy.meta.size &&
      Complete(a, original.blob, content) && Complete(b, copy.blob, content);
  }

  lemma SameDataStays(a: Chunks, original: Record, b: Chunks, c: Chunks, copy: Record)
    requires SameData(a, original, b, copy)
    requires forall i: nat {:trigger SameChunk(b, c, ChunkKey(copy.blob, i))} :: SameChunk(b, c, ChunkKey(copy.blob, i))
    ensures SameData(a, original, c, copy)
  {
    var content :| |content| == original.meta.size == copy.meta.size &&
      Complete(a, original.blob, content) && Complete(b, copy.blob, content);
    CompleteUnlessTouched(b, c, copy.blob, content);
  }

  /** Badger's conflict detection: what the transaction has read is still there. */
  predicate Unchanged(files: Files, items: seq<Record>) {
    forall i :: 0 <= i < |items| ==> items[i].meta.path in files && files[items[i].meta.path] == items[i]
  }

  /** Also, the destination's keys lead to what they led to; looking for a key that is absent counts as reading it. */
  predicate StillRead(files: Files, victims: seq<Record>, items: seq<Record>, dst: string, target: Option<Record>) {
    Unchanged(files, victims) && Unchanged(files, items) && FindByPath(files, TrimSlash(dst)) == target
  }

  /** The copies are new records for the items, under IDs of their own. */
  ghost predicate Replicates(items: seq<Record>, src: string, dst: string, now: int, copies: seq<Record>) {
    |copies| == |items| && forall i :: 0 <= i < |copies| ==>
      copies[i] == CopyRecord(items[i], src, dst, now, copies[i].meta.id, copies[i].blob)
  }

  ghost predicate FreshIds(index: map<Id, string>, copies: seq<Record>) {
    && (forall i :: 0 <= i < |copies| ==> copies[i].meta.id != NIL && copies[i].meta.id !in index)
    && (forall i, j :: 0 <= i < j < |copies| ==> copies[i].meta.id != copies[j].meta.id)
  }

  lemma {:induction false} AddAllFindable(t: Db, copies: seq<Record>, n: nat)
    requires Findable(t) && FreshIds(t.index, copies) && n <= |copies|
    ensures Findable(AddAll(t, copies, n))
    ensures forall id :: id in AddAll(t, copies, n).index ==> id in t.index || exists i :: 0 <= i < n && copies[i].meta.id == id
    decreases n
  {
    if n > 0 {
      AddAllFindable(t, copies, n - 1);
      AddFindable(AddAll(t, copies, n - 1), copies[n - 1]);
    }
  }

  ghost predicate FilesCopied(a: Chunks, items: seq<Record>, b: Chunks, copies: seq<Record>) {
    |copies| == |items| && forall i :: 0 <= i < |items| && !items[i].meta.isDir ==> SameData(a, items[i], b, copies[i])
  }

  datatype Copying = Copying(src: Record, dst: string, victims: seq<Record>, items: seq<Record>, copies: seq<Record>)

  /** What Copy has read in its view. */
  ghost predicate CopyReads(view: Db, id: Id, value: string, replace: Option<Id>, c: Copying) {
    && FindById(view, id) == Some(c.src)
    && TransferPath(Clean(Split(c.src.meta.path)), c.src.meta.isDir, value).Some?
    && c.dst == Stored(TransferPath(Clean(Split(c.src.meta.path)), c.src.meta.isDir, value).value, c.src.meta.isDir)
    && CopyGathers(view, replace, c)
  }

  /** The expectation is met, and the items are what the target's removal leaves of the source. */
  ghost predicate CopyGathers(view: Db, replace: Option<Id>, c: Copying) {
    && CheckReplacement(RecordId(FindByPath(view.files, TrimSlash(c.dst))), replace)
    && exists t1 :: Cleared(view, FindByPath(view.files, TrimSlash(c.dst)), c.victims, t1) && GathersFrom(t1.files, c.src, c.items)
  }

  /** What Copy makes of the store it commits to. */
  ghost predicate CopyWrites(view: Db, before: Db, now: int, c: Copying, r: Db) {
    && StillRead(before.files, c.victims, c.items, c.dst, FindByPath(view.files, TrimSlash(c.dst)))
    && Replicates(c.items, c.src.meta.path, c.dst, now, c.copies)
    && FilesCopied(view.chunks, c.items, r.chunks, c.copies)
    && FreshIds(before.index, c.copies)
    && exists b1 :: Erased(before, c.victims, b1) && r == AddAll(b1, c.copies, |c.copies|)
  }

  lemma FreshWhenErased(t: Db, items: seq<Record>, r: Db, copies: seq<Record>)
    requires FreshIds(t.index, copies) && Erased(t, items, r)
    ensures FreshIds(r.index, copies)
  {
    forall i | 0 <= i < |copies| ensures copies[i].meta.id !in r.index {
      assert UnindexedAt(t, items, r, copies[i].meta.id);
    }
  }

  lemma GatheredDrawn(view: Db, victims: seq<Record>, t1: Db, src: Record, items: seq<Record>)
    requires Erased(view, victims, t1) && GathersFrom(t1.files, src, items)
    requires src.meta.path in view.files && view.files[src.meta.path] == src
    ensures Drawn(view.files, items)
  {
    forall i | 0 <= i < |items| ensures items[i].meta.path in view.files && view.files[items[i].meta.path] == items[i] {
      assert ErasedAt(view, victims, t1, items[i].meta.path);
    }
  }

  lemma ClearedKeysMatch(view: Db, victims: seq<Record>, t1: Db, src: Record)
    requires Erased(view, victims, t1) && KeysMatch(view.files) && src.meta.path in view.files && view.files[src.meta.path] == src
    ensures KeysMatch(t1.files) && (src.meta.path in t1.files ==> t1.files[src.meta.path].meta.id == src.meta.id)
  {
    forall k | k in t1.files ensures k in view.files && t1.files[k] == view.files[k] {
      assert ErasedAt(view, victims, t1, k);
    }
  }
}
