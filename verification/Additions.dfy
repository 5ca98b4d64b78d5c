/** Create, Mkdir, Write and WriteComments in Badger: on the spelling of a namespace each does to the records what
    LocalStorage does to the entries, field by field. */
module Additions {
  import opened Paths
  import opened Disk
  import opened Namespace
  import opened EntryMaps
  import opened IndexFiles
  import opened Blobs
  import opened BadgerState
  import opened BadgerTransactions
  import opened BadgerDriver
  import opened Refinement
  import opened Trees

  // ----- The key of an argument -----

  /** A path as a caller may write it: with or without the slash in front and one at the end. */
  function Written(p: Path, front: bool, end: bool): string
    requires p != []
  {
    (if front then Render(p) else Render(p)[1..]) + (if end then "/" else "")
  }

  /** White space around a sensible path does not matter, a slash may be missing in front, and for a directory also
      at the end: Create and Mkdir use the stored path of that kind. */
  lemma NewKeyOf(p: Path, l: string, r: string, front: bool, end: bool)
    requires StoredPath(p) && p != []
    requires forall i :: 0 <= i < |l| ==> IsSpace(l[i])
    requires forall i :: 0 <= i < |r| ==> IsSpace(r[i])
    requires (front || !StartsInSpace(p[0])) && (end || !EndsInSpace(Last(p)))
    ensures NewKey(l + Written(p, front, end) + r, true) == Some(Stored(p, true))
    ensures !end ==> NewKey(l + Written(p, front, end) + r, false) == Some(Stored(p, false))
  {
    hide TrimSpace, IsSpace, Render, NewKey, Written;
    var text := Written(p, front, end);
    WrittenEnds(p, front, end);
    SlashIsNoSpace();
    assert StoredName(p[0]) && StoredName(Last(p));
    TrimSpaceIs(l, text, r);
    WrittenKey(p, l + text + r, front, end);
    if !end && l + text + r == "/" { SingleCharacter(l, text, r); }
  }

  lemma SingleCharacter(l: string, t: string, r: string)
    requires t != "" && l + t + r == "/"
    ensures t == "/"
  {
    assert |l| + |t| + |r| == 1;
    assert l == "" && r == "" && l + t + r == t;
  }

  lemma WrittenEnds(p: Path, front: bool, end: bool)
    requires StoredPath(p) && p != []
    ensures
      var text := Written(p, front, end);
      text != "" && text != "/" && text[0] == (if front then '/' else p[0][0])
      && text[|text| - 1] == (if end then '/' else Last(p)[|Last(p)| - 1])
  {
    StoredIsClean(p);
    NoSlashAtEnd(p);
    RenderLast(p);
    assert StoredName(p[0]) && StoredName(Last(p));
    assert Render(p)[1..] == p[0] + Render(p[1..]);
    assert p[0][0] in p[0];
  }

  lemma WrittenKey(p: Path, value: string, front: bool, end: bool)
    requires StoredPath(p) && p != [] && TrimSpace(value) == Written(p, front, end)
    ensures NewKey(value, true) == Some(Stored(p, true))
    ensures !end && value != "/" ==> NewKey(value, false) == Some(Stored(p, false))
  {
    hide TrimSpace;
    WrittenEnds(p, front, end);
    StoredIsClean(p);
    NoSlashAtEnd(p);
    RenderHead(p);
    var text, slash := Written(p, front, end), if end then "/" else "";
    assert StoredName(p[0]) && p[0][0] in p[0];
    if !front { assert "/" + text == ("/" + Render(p)[1..]) + slash; }
    assert Rooted(text) == Render(p) + slash && Render(p) + "" == Render(p);
    assert WithSlash(Render(p) + slash) == Render(p) + "/" == Stored(p, true);
  }

  /** LocalStorage reads it as that path, and Badger's Tree looks for the directory there. */
  lemma WrittenIsRead(p: Path, l: string, r: string, front: bool, end: bool)
    requires StoredPath(p) && p != []
    requires forall i :: 0 <= i < |l| ==> IsSpace(l[i])
    requires forall i :: 0 <= i < |r| ==> IsSpace(r[i])
    requires (front || !StartsInSpace(p[0])) && (end || !EndsInSpace(Last(p)))
    ensures StoragePath(l + Written(p, front, end) + r) == Some(p)
    ensures TreeTarget(l + Written(p, front, end) + r) == Stored(p, true)
  {
    hide TrimSpace, IsSpace, Written, Parse;
    var text := Written(p, front, end);
    WrittenEnds(p, front, end);
    SlashIsNoSpace();
    assert StoredName(p[0]) && StoredName(Last(p));
    TrimSpaceIs(l, text, r);
    WrittenParses(p, front, end);
    WrittenTarget(p, front, end);
    assert text[0] == '/' <==> front by { assert p[0][0] in p[0]; }
  }

  lemma WrittenTarget(p: Path, front: bool, end: bool)
    requires StoredPath(p) && p != []
    ensures
      var text := Written(p, front, end);
      var absolute := if front then text else "/" + text;
      absolute == Render(p) + (if end then "/" else "")
      && (if absolute[|absolute| - 1] != '/' then absolute + "/" else absolute) == Stored(p, true)
  {
    hide StoredPath;
    StoredIsClean(p);
    NoSlashAtEnd(p);
    RenderHead(p);
    var slash := if end then "/" else "";
    if !front { assert "/" + Written(p, front, end) == ("/" + Render(p)[1..]) + slash; }
    assert Render(p) + "" == Render(p);
  }

  lemma WrittenParses(p: Path, front: bool, end: bool)
    requires StoredPath(p) && p != []
    ensures Parse(Written(p, front, end)) == Some(p)
  {
    hide Split, Clean, HasForbidden, Render, Reserved;
    ParseOfRendered(p);
    var whole := Written(p, true, end);
    assert whole == Render(p) + (if end then "/" else "") && Render(p) + "" == Render(p);
    if !front {
      var text := Written(p, front, end);
      RenderHead(p);
      assert whole == "/" + text && whole[1..] == text;
      WithoutSlash(text, p);
    }
  }

  /** A slash in front makes no difference to what is read. */
  lemma WithoutSlash(text: string, p: Path)
    requires Parse("/" + text) == Some(p)
    ensures Parse(text) == Some(p)
  {
    hide Clean;
    assert ("/" + text)[1..] == text;
    assert Split("/" + text) == [""] + Split(text);
    CleanLeading(Split(text));
    forall i | 0 <= i < |Split(text)| ensures !Reserved(Split(text)[i]) {
      assert Split("/" + text)[i + 1] == Split(text)[i];
    }
    assert forall c :: c in text ==> c in "/" + text;
  }

  /** Nothing can be made at the root, and Tree takes no path for it. */
  lemma NoNewRoot(l: string, r: string, slash: bool)
    requires forall i :: 0 <= i < |l| ==> IsSpace(l[i])
    requires forall i :: 0 <= i < |r| ==> IsSpace(r[i])
    ensures NewKey(l + (if slash then "/" else "") + r, true) == None && NewKey("/", false) == None
    ensures TreeTarget(l + (if slash then "/" else "") + r) == "/"
  {
    hide TrimSpace, IsSpace;
    SlashIsNoSpace();
    TrimSpaceIs(l, if slash then "/" else "", r);
  }

  // ----- One record more, or another one -----

  lemma AddedSpelt(t: Db, ids: Entries, m: Meta, r: Record)
    requires Spelt(t, ids) && m.id !in ids && KeyString(m) !in t.files && r.meta == RowOf(m)
    ensures Spelt(AddRecord(t, r), ids[m.id := m])
  {
    hide Stored;
    var t', ids' := AddRecord(t, r), ids[m.id := m];
    forall id ensures SpeltAt(t', ids', id) { assert SpeltAt(t, ids, id); }
    forall k ensures KeySpelt(t', ids', k) {
      assert KeySpelt(t, ids, k);
      if k in t'.files {
        if k in t.files {
          var id :| id in ids && KeyString(ids[id]) == k;
          assert id in ids' && KeyString(ids'[id]) == k;
        } else {
          assert m.id in ids' && KeyString(ids'[m.id]) == k;
        }
      }
    }
  }

  lemma ReplacedSpelt(t: Db, ids: Entries, m: Meta, r: Record)
    requires NamespaceOk(ids) && Spelt(t, ids) && m.id in ids && r.meta == RowOf(m)
    requires m.path == ids[m.id].path && m.isDir == ids[m.id].isDir
    ensures Spelt(t.(files := t.files[KeyString(m) := r]), ids[m.id := m])
  {
    hide Stored;
    var t', ids' := t.(files := t.files[KeyString(m) := r]), ids[m.id := m];
    NamespaceSensible(ids);
    forall id ensures SpeltAt(t', ids', id) {
      assert SpeltAt(t, ids, id) && SpeltAt(t, ids, m.id);
      if id in ids { Distinct(ids, id, m.id); }
    }
    forall k ensures KeySpelt(t', ids', k) {
      assert KeySpelt(t, ids, k) && SpeltAt(t, ids, m.id);
      if k in t'.files {
        var id :| id in ids && KeyString(ids[id]) == k;
        assert id in ids' && KeyString(ids'[id]) == k;
      }
    }
  }

  lemma {:induction false} NothingBelow(ids: Entries, p: Path, id: Id)
    requires NamespaceOk(ids) && Vacant(ids, p) && p != [] && id in ids
    ensures !(p <= ids[id].path)
    decreases |ids[id].path|
  {
    if p < ids[id].path {
      assert ParentIndexed(ids, id);
      assert p <= Parent(ids[id].path);
      var d :| d in ids && ids[d].path == Parent(ids[id].path) && ids[d].isDir;
      NothingBelow(ids, p, d);
    }
  }

  // ----- The operations -----

  /** The entry that Create or Mkdir makes. */
  function NewEntry(id: Id, p: Path, isDir: bool, size: nat, now: int): Meta
    requires p != []
  {
    Meta(id, p, isDir, Last(p), size, now, "")
  }

  /** The record that Create or Mkdir adds. */
  ghost predicate NewRecord(t: Db, value: string, isDir: bool, size: nat, now: int, r: Record) {
    && NewKey(value, isDir) == Some(r.meta.path) && r.meta.id != NIL && r.meta.id !in t.index
    && r.meta == Row(r.meta.id, r.meta.path, isDir, BaseName(r.meta.path), size, now, "")
  }

  /** Create and Mkdir: a record for a path that is free adds one entry, whose name is the last component. */
  lemma NewRefines(t: Db, ids: Entries, value: string, p: Path, isDir: bool, size: nat, now: int, r: Record)
    requires NamespaceOk(ids) && Spelt(t, ids) && StoredPath(p) && p != [] && Vacant(ids, p)
    requires NewKey(value, isDir) == Some(Stored(p, isDir)) && NewValueRefusal(t.files, value, isDir).None?
    requires NewRecord(t, value, isDir, size, now, r)
    ensures HasDirectory(ids, Parent(p)) && r.meta.id !in ids
    ensures Spelt(AddRecord(t, r), ids[r.meta.id := NewEntry(r.meta.id, p, isDir, size, now)])
    ensures NamespaceOk(ids[r.meta.id := NewEntry(r.meta.id, p, isDir, size, now)])
  {
    hide Stored, NewKey, BaseName, NewRefusal;
    var m := NewEntry(r.meta.id, p, isDir, size, now);
    BaseNameIsLast(p, isDir);
    NewRefusalDecides(t, ids, p, isDir);
    FreeKey(t, ids, p, isDir);
    AddedSpelt(t, ids, m, r);
    forall id | id in ids ensures !(p <= ids[id].path) { NothingBelow(ids, p, id); }
    AddedOk(ids, m);
  }

  lemma FreeKey(t: Db, ids: Entries, p: Path, isDir: bool)
    requires NamespaceOk(ids) && Spelt(t, ids) && StoredPath(p) && p != [] && Vacant(ids, p)
    ensures Stored(p, isDir) !in t.files
  {
    hide Stored;
    NamespaceSensible(ids);
    if Stored(p, isDir) in t.files {
      IdOfKey(t, ids, Stored(p, isDir));
      KeyStringInjective(ids[t.files[Stored(p, isDir)].meta.id], Meta(NIL, p, isDir, "", 0, 0, ""));
    }
  }

  /** Write: one entry's size and time, and nothing else of the namespace. */
  lemma WriteRefines(t: Db, ids: Entries, id: Id, size: nat, now: int, r: Db)
    requires NamespaceOk(ids) && Spelt(t, ids) && FindById(t, id).Some?
    requires r.index == t.index && t.index[id] in r.files
    requires r.files == t.files[t.index[id] :=
      Record.Record(t.files[t.index[id]].meta.(size := size, modified := now), r.files[t.index[id]].blob)]
    ensures id in ids && Spelt(r, ids[id := ids[id].(size := size, modified := now)])
    ensures NamespaceOk(ids[id := ids[id].(size := size, modified := now)])
  {
    hide Stored;
    SourceRecord(t, ids, id);
    SpeltThere(t, ids, id);
    var m := ids[id].(size := size, modified := now);
    ReplacedSpelt(t, ids, m, r.files[t.index[id]]);
    OtherChunksSpelt(t.(files := r.files), r, ids[id := m]);
    UpdatedOk(ids, m);
  }

  /** WriteComments: one entry's comment, and nothing else. */
  lemma CommentRefines(t: Db, ids: Entries, id: Id, comments: string, r: Db)
    requires NamespaceOk(ids) && Spelt(t, ids) && FindById(t, id).Some?
    requires r == t.(files := r.files) && r.files.Keys == t.files.Keys
    requires forall k :: k in r.files && k != t.index[id] ==> r.files[k] == t.files[k]
    requires r.files[t.index[id]].meta == t.files[t.index[id]].meta.(comments := comments)
    ensures id in ids && Spelt(r, ids[id := ids[id].(comments := comments)])
    ensures NamespaceOk(ids[id := ids[id].(comments := comments)])
  {
    hide Stored;
    SourceRecord(t, ids, id);
    SpeltThere(t, ids, id);
    var m := ids[id].(comments := comments);
    ReplacedSpelt(t, ids, m, r.files[t.index[id]]);
    assert r.files == t.files[KeyString(m) := r.files[t.index[id]]];
    UpdatedOk(ids, m);
  }

  /** Chunks spell nothing. */
  lemma OtherChunksSpelt(a: Db, b: Db, ids: Entries)
    requires Spelt(a, ids) && a.files == b.files && a.index == b.index
    ensures Spelt(b, ids)
  {
    forall id ensures SpeltAt(b, ids, id) { assert SpeltAt(a, ids, id); }
    forall k ensures KeySpelt(b, ids, k) { assert KeySpelt(a, ids, k); }
  }
}
