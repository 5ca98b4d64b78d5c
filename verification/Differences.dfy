/** Where the drivers part: for any argument, exactly when they read a destination alike, accept the same new
    paths, and answer Tree for the same paths. */
module Differences {
  import opened Paths
  import opened Disk
  import opened Namespace
  import opened RootDirectory
  import opened EntryMaps
  import opened IndexFiles
  import opened Restoring
  import opened BadgerState
  import opened BadgerTransactions
  import opened BadgerDriver
  import opened Refinement
  import opened LocalTrees
  import opened TreeShapes
  import opened Trees

  // ----- Destinations -----

  /** The destination of Move or Copy as LocalStorage reads it, before it looks at the store. */
  function LocalDestination(src: Path, isDir: bool, value: string): Option<Path> {
    match StoragePath(value) case None => None case Some(p) => TransferPath(src, isDir, Stored(p, false))
  }

  /** What Badger hands to TransferPath: Copy takes the argument as it is, Move tidies up its ends. */
  function BadgerArgument(value: string, copy: bool): string {
    if copy then value else Rooted(TrimSpace(value))
  }

  /** As Badger reads it. */
  function BadgerDestination(src: Path, isDir: bool, value: string, copy: bool): Option<Path> {
    TransferPath(src, isDir, BadgerArgument(value, copy))
  }

  /** What TransferPath refuses. */
  predicate Barred(src: Path, isDir: bool, d: Path) {
    d == [] || d <= src || (isDir && src <= d) || HasForbidden(Render(d))
  }

  lemma TransferIff(src: Path, isDir: bool, value: string)
    requires StoredPath(src) && src != []
    ensures TransferPath(src, isDir, value) == if Barred(src, isDir, Destined(value)) then None else Some(Destined(value))
  {
    hide Clean, Split, TrimSpace, Render, TransferPath, HasForbidden;
    StoredIsClean(src);
    TransferPathDecidesAncestry(src, isDir, value);
  }

  /** The drivers read a destination alike if and only if LocalStorage accepts the argument and its last name does
      not end in white space, or else both bar what they make of it. */
  lemma DestinationsAgreeIff(src: Path, isDir: bool, value: string, copy: bool)
    requires StoredPath(src) && src != []
    ensures LocalDestination(src, isDir, value) == BadgerDestination(src, isDir, value, copy) <==>
      match StoragePath(value)
      case None => Barred(src, isDir, Destined(value))
      case Some(p) =>
        p == [] || !EndsInSpace(Last(p)) || (Barred(src, isDir, p) && Barred(src, isDir, Destined(Stored(p, false))))
  {
    hide Clean, Split, TrimSpace, TransferPath, StoragePath, Stored, Barred, EndsInSpace, Destined, Rooted;
    RootedDestination(value);
    TransferIff(src, isDir, value);
    TransferIff(src, isDir, Rooted(TrimSpace(value)));
    match StoragePath(value)
    case None =>
    case Some(p) =>
      TransferIff(src, isDir, Stored(p, false));
      DestinedIsRead(value, p);
      if p == [] {
        RootBarred(src, isDir);
      } else {
        DestinationKept(value, p);
      }
  }

  lemma DestinedIsRead(value: string, p: Path)
    requires StoragePath(value) == Some(p)
    ensures Destined(value) == p
  {
    hide Clean, Split, TrimSpace;
  }

  lemma RootBarred(src: Path, isDir: bool)
    ensures Stored([], false) == "/" && Destined("/") == [] && Barred(src, isDir, [])
  {
    hide TrimSpace;
    TrimStays("/");
    assert Split("/") == ["", ""];
  }

  lemma SplitTwo(a: string)
    requires '/' !in a
    ensures Split("/" + a) == ["", a]
  {
    hide Split;
    EmptySplit();
    SplitMore("", a);
    assert "" + "/" + a == "/" + a && [""] + [a] == ["", a];
  }

  /** Badger takes ".." where LocalStorage refuses it. */
  lemma DotDotDivides(src: Path, copy: bool)
    requires StoredPath(src) && src != [] && !(["b"] <= src) && !(src <= ["b"])
    ensures LocalDestination(src, false, "/x/../b") == None && BadgerDestination(src, false, "/x/../b", copy) == Some(["b"])
  {
    hide Clean, TrimSpace, TransferPath, StoragePath, Render, Parse, Split;
    var value := "/x/../b";
    PlainArgument(value);
    UpAndDown("x", "b");
    assert value == "/" + "x" + "/" + ".." + "/" + "b";
    DotDotRefused("x", "b");
    PlainName("b");
    RootedDestination(value);
    TransferIff(src, false, value);
    TransferIff(src, false, Rooted(TrimSpace(value)));
  }

  /** An argument without white space at its ends. */
  lemma PlainArgument(value: string)
    requires value != "" && !IsSpace(value[0]) && !IsSpace(value[|value| - 1])
    ensures TrimSpace(value) == value && Destined(value) == Clean(Split(value)) && StoragePath(value) == Parse(value)
  {
    hide Clean, Split, IsSpace, TrimSpace;
    TrimStays(value);
  }

  lemma DotDotRefused(x: string, b: string)
    requires '/' !in x && '/' !in b
    ensures Parse("/" + x + "/" + ".." + "/" + b) == None
  {
    hide Split, Clean;
    SplitTwo(x);
    SplitMore("/" + x, "..");
    SplitMore("/" + x + "/" + "..", b);
    assert Split("/" + x + "/" + ".." + "/" + b)[2] == "..";
  }

  lemma PlainName(name: string)
    requires StoredName(name)
    ensures Render([name]) == "/" + name && !HasForbidden(Render([name]))
  {
    RenderOne(name);
  }

  /** Badger takes reserved names. */
  lemma ReservedDivides(src: Path, copy: bool)
    requires StoredPath(src) && src != []
    ensures LocalDestination(src, false, "/.vfsx") == None && BadgerDestination(src, false, "/.vfsx", copy) == Some([".vfsx"])
  {
    hide TrimSpace, TransferPath, StoragePath, Split, Clean;
    var value := "/.vfsx";
    PlainArgument(value);
    SplitTwo(".vfsx");
    assert "/" + ".vfsx" == value;
    assert Split(value) == ["", ".vfsx"];
    assert Reserved(Split(value)[1]);
    CleanKeeps([".vfsx"]);
    CleanLeading([".vfsx"]);
    assert [""] + [".vfsx"] == Split(value);
    RenderOne(".vfsx");
    RootedDestination(value);
    assert !([".vfsx"] <= src) by { assert StoredName(src[0]); assert [".vfsx"][0] == ".vfsx"; assert ".vfs" <= ".vfsx"; }
    TransferIff(src, false, value);
    TransferIff(src, false, Rooted(TrimSpace(value)));
  }

  /** LocalStorage trims a name that a slash has protected. */
  lemma SpaceDivides(src: Path, copy: bool)
    requires StoredPath(src) && src != [] && !(["b"] <= src) && !(src <= ["b"])
    ensures LocalDestination(src, false, "/b /") != BadgerDestination(src, false, "/b /", copy)
  {
    hide TrimSpace, TransferPath, StoragePath, Stored, Barred, Destined;
    var p := ["b "];
    assert StoredName(p[0]) && EndsInSpace(p[0]);
    DirectoryStable(p);
    SpaceSpelt();
    SpaceNotBarred(src);
    DestinationsAgreeIff(src, false, "/b /", copy);
  }

  lemma SpaceSpelt()
    ensures Stored(["b "], true) == "/b /" && Stored(["b "], false) == "/b " && Destined("/b ") == ["b"]
  {
    hide TrimSpace, Split, Clean;
    RenderOne("b ");
    TrimOfRooted("/b ");
    assert TrimRight("/b ") == TrimRight("/b") == "/b" by { assert "/b "[..2] == "/b"; }
    SplitTwo("b");
    assert "/" + "b" == "/b";
    assert Split("/b") == ["", "b"];
    CleanLeading(["b"]);
    CleanKeeps(["b"]);
    assert [""] + ["b"] == Split("/b");
  }

  lemma SpaceNotBarred(src: Path)
    requires StoredPath(src) && src != [] && !(["b"] <= src)
    ensures !Barred(src, false, ["b"])
  {
    PlainName("b");
  }

  // ----- Transfers -----

  /** The entry at the destination is what the caller expects there. */
  ghost predicate Meets(ids: Entries, d: Path, replace: Option<Id>) {
    match replace
    case None => true
    case Some(x) => if x == NIL then Vacant(ids, d) else x in ids && ids[x].path == d
  }

  lemma ReplacementIff(ids: Entries, paths: Lookup, d: Path, replace: Option<Id>)
    requires NamespaceOk(ids) && SameEntries(ids, paths)
    ensures CheckReplacement(IdOf(Find(paths, d)), replace) <==> Meets(ids, d, replace)
  {
    hide Find;
    FindExact(ids, paths, d);
    if Find(paths, d).Some? {
      var m := Find(paths, d).value;
      assert WellFormed(ids, m.id);
      forall x | x in ids && ids[x].path == d ensures x == m.id { assert Unique(ids, x, m.id); }
    }
  }

  /** LocalStorage goes on with the destination: its parent is indexed, and the entry there is as expected. */
  ghost predicate LocalTakes(ids: Entries, d: Option<Path>, replace: Option<Id>) {
    d.Some? && d.value != [] && HasDirectory(ids, Parent(d.value)) && Meets(ids, d.value, replace)
  }

  /** Badger goes on with it whether or not there is a parent. */
  ghost predicate BadgerTakes(ids: Entries, d: Option<Path>, replace: Option<Id>) {
    d.Some? && Meets(ids, d.value, replace)
  }

  /** LocalStorage's checks on a transfer, in terms of the namespace. */
  lemma LocalTransferIff(ids: Entries, paths: Lookup, id: Id, value: string, replace: Option<Id>)
    requires NamespaceOk(ids) && SameEntries(ids, paths) && id in ids
    ensures
      var d, r := LocalDestination(ids[id].path, ids[id].isDir, value), CheckTransfer(paths, ids[id], value, replace);
      (r.To? <==> LocalTakes(ids, d, replace)) && (r.To? ==> d == Some(r.dst))
  {
    hide StoragePath, TransferPath, Stored, Find, CheckParent, StoredPath;
    var src := ids[id];
    NamespaceSensible(ids);
    if StoragePath(value).Some? {
      var p := StoragePath(value).value;
      StoragePathYieldsStoredNames(value);
      StoredIsClean(src.path);
      TransferKeepsStoredNames(src.path, src.isDir, p);
      var d := TransferPath(src.path, src.isDir, Stored(p, false));
      if d.Some? {
        CheckParentDecides(ids, paths, d.value);
        ReplacementIff(ids, paths, d.value, replace);
      }
    }
  }

  /** Badger's checks on a transfer, in terms of the namespace. */
  lemma BadgerTransferIff(t: Db, ids: Entries, paths: Lookup, id: Id, value: string, replace: Option<Id>, copy: bool)
    requires NamespaceOk(ids) && SameEntries(ids, paths) && Spelt(t, ids) && id in ids
    ensures TransferRefusal(t, id, BadgerArgument(value, copy), replace).None? <==>
      BadgerTakes(ids, BadgerDestination(ids[id].path, ids[id].isDir, value, copy), replace)
  {
    hide TransferPath, Stored, Clean, Split, TrimSpace, TrimSlash, Rooted, FindByPath, Find, StoredPath, Spelt, CleanPath;
    var src, argument := ids[id], BadgerArgument(value, copy);
    SourceRecord(t, ids, id);
    NamespaceSensible(ids);
    StoredIsClean(src.path);
    StoredCleans(src.path, src.isDir);
    var d := TransferPath(src.path, src.isDir, argument);
    if d.Some? {
      DestinationIsClean(src.path, src.isDir, argument);
      SameTarget(t, ids, paths, d.value, src.isDir);
      ReplacementIff(ids, paths, d.value, replace);
    }
  }

  lemma DestinationIsClean(src: Path, isDir: bool, value: string)
    requires TransferPath(src, isDir, value).Some? && CleanPath(src)
    ensures TransferPath(src, isDir, value).value != [] && CleanPath(TransferPath(src, isDir, value).value)
  {
    hide Clean, Split, TrimSpace, TransferPath;
    TransferPathDecidesAncestry(src, isDir, value);
    CleanOfSplit(TrimSpace(value));
  }

  /** Both refuse, or both accept and transfer to one path. */
  ghost predicate TransfersAlike(t: Db, ids: Entries, paths: Lookup, id: Id, value: string, replace: Option<Id>, copy: bool)
    requires id in ids
  {
    var r := CheckTransfer(paths, ids[id], value, replace);
    (r.To? <==> TransferRefusal(t, id, BadgerArgument(value, copy), replace).None?) &&
    (r.To? ==> BadgerDestination(ids[id].path, ids[id].isDir, value, copy) == Some(r.dst))
  }

  /** On a common namespace the drivers do the same with a transfer if and only if they read the destination alike, and
      LocalStorage finds an indexed parent for it or the expectation fails, or else neither accepts what it reads. */
  lemma TransfersAgreeIff(t: Db, ids: Entries, paths: Lookup, id: Id, value: string, replace: Option<Id>, copy: bool)
    requires NamespaceOk(ids) && SameEntries(ids, paths) && Spelt(t, ids) && id in ids
    ensures
      var l, b := LocalDestination(ids[id].path, ids[id].isDir, value), BadgerDestination(ids[id].path, ids[id].isDir, value, copy);
      TransfersAlike(t, ids, paths, id, value, replace, copy) <==>
        if l == b then l == None || !Meets(ids, l.value, replace) || (l.value != [] && HasDirectory(ids, Parent(l.value)))
        else !LocalTakes(ids, l, replace) && !BadgerTakes(ids, b, replace)
  {
    hide LocalDestination, BadgerDestination, CheckTransfer, TransferRefusal, BadgerArgument, Spelt, NamespaceOk, Meets, HasDirectory;
    LocalTransferIff(ids, paths, id, value, replace);
    BadgerTransferIff(t, ids, paths, id, value, replace, copy);
  }

  /** Badger moves and copies to where there is no directory. */
  lemma NoParentDivides(t: Db, ids: Entries, paths: Lookup, id: Id, copy: bool)
    requires NamespaceOk(ids) && SameEntries(ids, paths) && Spelt(t, ids) && id in ids && !ids[id].isDir && ids[id].path == ["f"]
    requires Vacant(ids, ["d"]) && Vacant(ids, ["d", "x"])
    ensures CheckTransfer(paths, ids[id], "/d/x", Some(NIL)).Refused?
    ensures TransferRefusal(t, id, BadgerArgument("/d/x", copy), Some(NIL)).None?
  {
    hide LocalDestination, CheckTransfer, TransferRefusal, BadgerArgument, Spelt, NamespaceOk, TransferPath, TrimSpace, Rooted, Clean, Split;
    LocalTransferIff(ids, paths, id, "/d/x", Some(NIL));
    BadgerTransferIff(t, ids, paths, id, "/d/x", Some(NIL), copy);
    ParentlessRead(copy);
    assert Parent(["d", "x"]) == ["d"];
    LocalReadsParentless();
  }

  lemma DeepPath()
    ensures Clean(Split("/d/x")) == ["d", "x"] && Render(["d", "x"]) == "/d/x" && Parse("/d/x") == Some(["d", "x"])
  {
    hide Split, Clean;
    assert "/" + "d" == "/d" && "/d" + "/" + "x" == "/d/x";
    SplitTwo("d");
    SplitMore("/d", "x");
    assert StoredName("d") && StoredName("x");
    CleanKeeps(["d", "x"]);
    CleanLeading(["d", "x"]);
    assert [""] + ["d", "x"] == ["", "d"] + ["x"];
    assert Split("/d/x") == ["", "d", "x"];
    RenderOne("x");
    assert ["d", "x"][1..] == ["x"] && "d" + "/x" == "d/x" && "/" + "d/x" == "/d/x";
  }

  lemma ParentlessRead(copy: bool)
    ensures BadgerDestination(["f"], false, "/d/x", copy) == Some(["d", "x"])
  {
    hide Clean, Split, TrimSpace, TransferPath, StoragePath, Parse, Render;
    PlainArgument("/d/x");
    DeepPath();
    assert StoredName("f") && !(["d", "x"] <= ["f"]);
    RootedDestination("/d/x");
    TransferIff(["f"], false, "/d/x");
    TransferIff(["f"], false, Rooted(TrimSpace("/d/x")));
  }

  lemma LocalReadsParentless()
    ensures LocalDestination(["f"], false, "/d/x") == Some(["d", "x"])
  {
    hide Clean, Split, TrimSpace, TransferPath, StoragePath, Parse, Render;
    PlainArgument("/d/x");
    DeepPath();
    assert StoredName("f") && !(["d", "x"] <= ["f"]) && Stored(["d", "x"], false) == "/d/x" by { assert "/d/x" + "" == "/d/x"; }
    TransferIff(["f"], false, "/d/x");
  }

  // ----- New paths -----

  /** What Create and Mkdir of LocalStorage look up. */
  ghost predicate Unfound(ids: Entries, text: string) {
    match StoragePath(text) case None => true case Some(q) => Vacant(ids, q)
  }

  /** LocalStorage's checks on a new path, in terms of the namespace. */
  ghost predicate LocalAdmits(ids: Entries, value: string, isDir: bool) {
    match StoragePath(value)
    case None => false
    case Some(p) => p != [] && Unfound(ids, Stored(p, isDir)) && HasDirectory(ids, Parent(p))
  }

  /** Badger's checks on a new path, in terms of the namespace. */
  ghost predicate BadgerAdmits(ids: Entries, value: string, isDir: bool) {
    match NewKey(value, isDir)
    case None => false
    case Some(k) => (ParentString(k) == "/" || TakenByDirectory(ids, ParentString(k))) && !Taken(ids, k)
  }

  lemma LocalAdmitsIff(ids: Entries, paths: Lookup, value: string, isDir: bool)
    requires NamespaceOk(ids) && SameEntries(ids, paths)
    ensures CheckNew(paths, value, isDir).None? <==> LocalAdmits(ids, value, isDir)
  {
    hide StoragePath, Stored, StoredPath;
    if StoragePath(value).Some? {
      var p := StoragePath(value).value;
      StoragePathYieldsStoredNames(value);
      if p != [] {
        CheckParentDecides(ids, paths, p);
        if StoragePath(Stored(p, isDir)).Some? { FindExact(ids, paths, StoragePath(Stored(p, isDir)).value); }
      }
    }
  }

  lemma BadgerAdmitsIff(t: Db, ids: Entries, value: string, isDir: bool)
    requires NamespaceOk(ids) && Spelt(t, ids)
    ensures NewValueRefusal(t.files, value, isDir).None? <==> BadgerAdmits(ids, value, isDir)
  {
    hide NewKey, ParentString, NewRefusal, Taken, TakenByDirectory;
    if NewKey(value, isDir).Some? { NewKeyDecides(t, ids, NewKey(value, isDir).value); }
  }

  /** Both refuse, or both accept and use one key. */
  ghost predicate NewAlike(t: Db, paths: Lookup, value: string, isDir: bool) {
    && (CheckNew(paths, value, isDir).None? <==> NewValueRefusal(t.files, value, isDir).None?)
    && (CheckNew(paths, value, isDir).None? ==>
          StoragePath(value).Some? && NewKey(value, isDir) == Some(Stored(StoragePath(value).value, isDir)))
  }

  /** The argument means the same key to both. */
  ghost predicate SpelledAlike(value: string, isDir: bool) {
    StoragePath(value).Some? && StoragePath(value).value != [] &&
    NewKey(value, isDir) == Some(Stored(StoragePath(value).value, isDir))
  }

  /** An entry of the other kind has the path. */
  ghost predicate Twin(ids: Entries, p: Path, isDir: bool) {
    exists id :: id in ids && ids[id].path == p && ids[id].isDir != isDir
  }

  /** On a common namespace the drivers do the same with an argument of Create or Mkdir if and only if it means the
      same key to both and there is no entry of the other kind at the path in a directory, or else both refuse. */
  lemma NewPathsAgreeIff(t: Db, ids: Entries, paths: Lookup, value: string, isDir: bool)
    requires NamespaceOk(ids) && SameEntries(ids, paths) && Spelt(t, ids)
    ensures NewAlike(t, paths, value, isDir) <==>
      if SpelledAlike(value, isDir)
        then !(HasDirectory(ids, Parent(StoragePath(value).value)) && Twin(ids, StoragePath(value).value, isDir))
      else !LocalAdmits(ids, value, isDir) && !BadgerAdmits(ids, value, isDir)
  {
    hide StoragePath, Stored, NewKey, CheckNew, NewValueRefusal, LocalAdmits, BadgerAdmits, StoredPath, NewRefusal, Spelt;
    LocalAdmitsIff(ids, paths, value, isDir);
    BadgerAdmitsIff(t, ids, value, isDir);
    if SpelledAlike(value, isDir) {
      var p := StoragePath(value).value;
      StoragePathYieldsStoredNames(value);
      if !isDir { KeyEndsInNoSpace(value, p); }
      SpelledDecides(t, ids, paths, value, isDir, p);
    } else {
      LocalAdmitsPath(ids, value, isDir);
    }
  }

  lemma LocalAdmitsPath(ids: Entries, value: string, isDir: bool)
    ensures LocalAdmits(ids, value, isDir) ==> StoragePath(value).Some? && StoragePath(value).value != []
  {
    hide StoragePath, Stored, Unfound, HasDirectory;
  }

  lemma SpelledDecides(t: Db, ids: Entries, paths: Lookup, value: string, isDir: bool, p: Path)
    requires NamespaceOk(ids) && SameEntries(ids, paths) && Spelt(t, ids)
    requires StoragePath(value) == Some(p) && p != [] && StoredPath(p) && NewKey(value, isDir) == Some(Stored(p, isDir))
    requires isDir || !EndsInSpace(Last(p))
    ensures CheckNew(paths, value, isDir).None? <==> HasDirectory(ids, Parent(p)) && Vacant(ids, p)
    ensures NewValueRefusal(t.files, value, isDir).None? <==>
      HasDirectory(ids, Parent(p)) && (Vacant(ids, p) || Twin(ids, p, isDir))
  {
    hide StoragePath, Stored, NewKey, CheckNew, NewRefusal, StoredPath, Spelt;
    CheckNewDecides(ids, paths, value, isDir, p);
    NewRefusalDecides(t, ids, p, isDir);
    forall a, b | a in ids && b in ids && ids[a].path == p && ids[b].path == p ensures a == b {
      assert Unique(ids, a, b);
    }
  }

  /** Badger's key for a file has been trimmed. */
  lemma KeyEndsInNoSpace(value: string, p: Path)
    requires NewKey(value, false) == Some(Stored(p, false)) && StoredPath(p) && p != []
    ensures !EndsInSpace(Last(p))
  {
    hide TrimSpace, IsSpace, Render, StoredPath;
    TrimmedEnds(value);
    StoredIsClean(p);
    RenderLast(p);
    NotRoot(p);
    assert Stored(p, false) == Render(p) == Rooted(TrimSpace(value));
  }

  /** LocalStorage tidies up inner slashes; Badger looks for a parent directory of that very spelling. */
  lemma InnerSlashDivides()
    ensures CheckNew(map[], "//y", false).None? && NewValueRefusal(map[], "//y", false) == Some(NotFound)
  {
    hide TrimSpace, StoragePath, StatPath, Split, Clean;
    PlainArgument("//y");
    InnerSlashStored();
    NothingFound();
    assert Rooted(TrimSpace("//y")) == "//y";
    assert UpToSlash("//y") == UpToSlash("//") == "//" by { assert "//y"[..2] == "//"; }
  }

  lemma InnerSlashStored()
    ensures Parse("//y") == Some(["y"])
  {
    hide Split, Clean;
    EmptySplit();
    SplitMore("", "");
    SplitMore("/", "y");
    assert "" + "/" + "" == "/" && "/" + "/" + "y" == "//y";
    assert Split("//y") == ["", "", "y"];
    assert StoredName("y");
    CleanKeeps(["y"]);
    CleanLeading(["y"]);
    CleanLeading(["", "y"]);
    assert [""] + ["y"] == ["", "y"] && [""] + ["", "y"] == ["", "", "y"];
    assert Split("//y")[0] == "" && Split("//y")[1] == "" && Split("//y")[2] == "y";
  }

  /** Badger creates a file under a reserved name, or, for an empty argument, at the root. */
  lemma BadgerTakesMore()
    ensures CheckNew(map[], "/.vfsx", false) == Some(InvalidPath) && NewValueRefusal(map[], "/.vfsx", false) == None
    ensures CheckNew(map[], "", false) == Some(InvalidPath) && NewValueRefusal(map[], "", false) == None
  {
    hide TrimSpace, StoragePath, Split;
    PlainArgument("/.vfsx");
    SplitTwo(".vfsx");
    assert "/" + ".vfsx" == "/.vfsx";
    assert Split("/.vfsx") == ["", ".vfsx"];
    assert Reserved(Split("/.vfsx")[1]);
    assert Rooted(TrimSpace("/.vfsx")) == "/.vfsx";
    UpToFirst("/.vfsx");
    EmptyArgument();
  }

  lemma UpToFirst(k: string)
    requires k == "/.vfsx"
    ensures ParentString(k) == "/"
  {
    assert k == "" + ("/" + ".vfsx");
    UpToName("", ".vfsx");
    assert "" + "/" == "/";
  }

  lemma EmptyArgument()
    ensures TrimSpace("") == "" && StoragePath("") == Some([]) && Rooted("") == "/" && ParentString("/") == "/"
  {
    assert Split("") == [""];
    CleanLeading([]);
    assert [""] + [] == Split("");
  }

  /** Beside a directory Badger creates a file of the same name. */
  lemma TwinDivides(t: Db, ids: Entries, paths: Lookup, d: Id)
    requires NamespaceOk(ids) && SameEntries(ids, paths) && Spelt(t, ids) && d in ids && ids[d].isDir && ids[d].path == ["a"]
    ensures CheckNew(paths, "/a", false).Some? && NewValueRefusal(t.files, "/a", false).None?
  {
    hide TrimSpace, StoragePath, CheckNew, NewValueRefusal, Spelt, Stored;
    var p := ["a"];
    assert StoredName(p[0]) && !EndsInSpace(p[0]);
    assert p[..0] == [];
    FileStable(p);
    PlainArgument("/a");
    OneName();
    SpelledDecides(t, ids, paths, "/a", false, p);
  }

  lemma OneName()
    ensures Stored(["a"], false) == "/a"
  {
    RenderOne("a");
  }

  // ----- Trees -----

  /** LocalStorage answers Tree for this argument. */
  ghost predicate LocalFinds(ids: Entries, value: string) {
    FindsAt(ids, StoragePath(value))
  }

  ghost predicate FindsAt(ids: Entries, path: Option<Path>) {
    match path case None => false case Some(p) => p == [] || !Vacant(ids, p)
  }

  predicate BadgerFinds(t: Db, value: string) {
    TreeTarget(value) == "/" || TreeTarget(value) in t.files
  }

  /** Neither answers, or both do and for one root. */
  ghost predicate TreesAlike(t: Db, ids: Entries, value: string) {
    && (LocalFinds(ids, value) <==> BadgerFinds(t, value))
    && (LocalFinds(ids, value) ==> TreeTarget(value) == Stored(StoragePath(value).value, true))
  }

  /** What LocalFinds says is what Tree does. */
  lemma LocalFindsIff(ids: Entries, paths: Lookup, path: Option<Path>, r: TreeResult)
    requires SameEntries(ids, paths) && Answers(ids, paths, path, r)
    ensures r.Tree? <==> FindsAt(ids, path)
  {
    hide RowOf, TreeOf;
    if path.Some? { FindExact(ids, paths, path.value); }
  }

  /** On a common namespace the drivers answer Tree alike if and only if the argument spells out the path's stored
      form, a slash at its end aside, and there is no file at the path, or else neither of them answers. */
  lemma TreesAgreeIff(t: Db, ids: Entries, value: string)
    requires NamespaceOk(ids) && Spelt(t, ids)
    ensures TreesAlike(t, ids, value) <==>
      if StoragePath(value).Some? && TreeTarget(value) == Stored(StoragePath(value).value, true)
        then forall id :: id in ids && ids[id].path == StoragePath(value).value ==> ids[id].isDir
      else !LocalFinds(ids, value) && TreeTarget(value) != "/" && !TakenByDirectory(ids, TreeTarget(value))
  {
    hide StoragePath, Stored, TreeTarget, StoredPath, Spelt;
    var u := TreeTarget(value);
    NamespaceSensible(ids);
    TargetIsDirectory(t, ids, u);
    if StoragePath(value).Some? {
      var p := StoragePath(value).value;
      StoragePathYieldsStoredNames(value);
      if p == [] {
        StoredOfRoot();
      } else if u == Stored(p, true) {
        NotRootKey(p);
        DirectoryKey(ids, p);
        forall a, b | a in ids && b in ids && ids[a].path == p && ids[b].path == p ensures a == b {
          assert Unique(ids, a, b);
        }
      }
    }
  }

  lemma TargetIsDirectory(t: Db, ids: Entries, u: string)
    requires NamespaceOk(ids) && Spelt(t, ids) && u != "" && u[|u| - 1] == '/'
    ensures u in t.files <==> TakenByDirectory(ids, u)
    ensures u == "/" ==> u !in t.files
  {
    hide Render, Stored;
    NamespaceSensible(ids);
    TakenIff(t, ids, u);
    forall id | id in ids ensures KeyString(ids[id]) == u ==> ids[id].isDir && u != "/" {
      StoredText(ids[id].path, ids[id].isDir);
      NoSlashAtEnd(ids[id].path);
      var r := Render(ids[id].path);
      assert (r + "/")[..|r|] == r && r + "" == r;
      RenderHead(ids[id].path);
    }
  }

  /** For the stored path of a directory, and for the root, they do. */
  lemma DirectoriesAnswered(t: Db, ids: Entries, root: Path)
    requires NamespaceOk(ids) && Spelt(t, ids) && StoredPath(root) && HasDirectory(ids, root)
    ensures TreesAlike(t, ids, Stored(root, true)) && BadgerFinds(t, Stored(root, true))
  {
    hide StoragePath, Stored, TreeTarget, Spelt, StoredPath;
    StoredPathNames(root);
    FoundIffDirectory(t, ids, root);
    TreesAgreeIff(t, ids, Stored(root, true));
    forall id | id in ids && ids[id].path == root ensures ids[id].isDir {
      assert WellFormed(ids, id);
      if root != [] {
        var d :| d in ids && ids[d].path == root && ids[d].isDir;
        assert Unique(ids, d, id);
      }
    }
  }

  /** Inner slashes: LocalStorage answers, Badger does not. */
  lemma InnerSlashUnanswered(t: Db, ids: Entries, d: Id)
    requires NamespaceOk(ids) && Spelt(t, ids) && d in ids && ids[d].path == ["a", "b"]
    ensures LocalFinds(ids, "/a//b") && !BadgerFinds(t, "/a//b")
  {
    hide TrimSpace, StoragePath, Spelt, Split, Clean;
    var value, p := "/a//b", ["a", "b"];
    PlainArgument(value);
    SplitInner();
    InnerSlashRead();
    assert TreeTarget(value) == "/a//b/";
    NoInnerSlash(t, ids);
  }

  lemma InnerSlashRead()
    ensures Clean(["", "a", "", "b"]) == ["a", "b"]
  {
    var s := ["", "a", "", "b"];
    assert s[..3] == ["", "a", ""] && ["", "a", ""][..2] == ["", "a"] && ["", "a"][..1] == [""] && [""][..0] == [];
  }

  lemma NoInnerSlash(t: Db, ids: Entries)
    requires NamespaceOk(ids) && Spelt(t, ids)
    ensures "/a//b/" !in t.files
  {
    hide Stored, Split;
    NamespaceSensible(ids);
    TakenIff(t, ids, "/a//b/");
    forall id | id in ids ensures KeyString(ids[id]) != "/a//b/" {
      InnerSlashNotStored(ids[id].path, ids[id].isDir);
    }
  }

  lemma InnerSlashNotStored(p: Path, isDir: bool)
    requires StoredPath(p) && p != []
    ensures Stored(p, isDir) != "/a//b/"
  {
    hide Render, Split, Stored;
    NoSlashAtEnd(p);
    StoredText(p, isDir);
    StoredIsClean(p);
    SplitRender(p);
    SplitInner();
    var r := Render(p);
    assert (r + "/")[..|r|] == r && r + "" == r && "/a//b/"[..5] == "/a//b";
    var tail := ["a", "", "b"];
    assert Split("/a//b") == [""] + tail && ([""] + tail)[1..] == tail && ([""] + p)[1..] == p;
    assert tail[1] == "" && "" in tail;
    assert "" !in p by { assert forall i :: 0 <= i < |p| ==> StoredName(p[i]); }
  }

  lemma SplitInner()
    ensures Split("/a//b") == ["", "a", "", "b"]
  {
    hide Split;
    SplitTwo("a");
    SplitMore("/a", "");
    SplitMore("/a/", "b");
    assert "/" + "a" == "/a" && "/a" + "/" + "" == "/a/" && "/a/" + "/" + "b" == "/a//b";
  }
}
