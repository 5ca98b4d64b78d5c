/** Virtual paths: the strings the drivers accept and the component lists they stand for.

    The rest of the project works on component lists with a separate directory flag. This module
    shows that doing so loses nothing: rendering is injective, and the string prefix tests of the
    source decide exactly the ancestor relation on component lists.
  */
module Paths {

  datatype Option<+T> = None | Some(value: T)

  type Path = seq<string>

  function Min(a: nat, b: nat): nat {
    if a < b then a else b
  }

  // ----- Go's string helpers -----

  /** The characters strings.TrimSpace removes. */
  predicate IsSpace(c: char) {
    '\t' <= c <= '\r' || c == ' ' || c == '\U{85}' || c == '\U{A0}' || c == '\U{1680}' ||
    '\U{2000}' <= c <= '\U{200A}' || c == '\U{2028}' || c == '\U{2029}' || c == '\U{202F}' ||
    c == '\U{205F}' || c == '\U{3000}'
  }

  function TrimLeft(s: string): (t: string)
    ensures |t| <= |s| && t == s[|s| - |t|..]
  {
    if s != "" && IsSpace(s[0]) then TrimLeft(s[1..]) else s
  }

  function TrimRight(s: string): (t: string)
    ensures t <= s
    ensures t == s <==> s == "" || !IsSpace(s[|s| - 1])
  {
    if s != "" && IsSpace(s[|s| - 1]) then TrimRight(s[..|s| - 1]) else s
  }

  function TrimSpace(s: string): string {
    TrimRight(TrimLeft(s))
  }

  /** One more character in front of a split string. */
  function SplitCons(c: char, rest: seq<string>): seq<string>
    requires rest != []
  {
    if c == '/' then [""] + rest else [[c] + rest[0]] + rest[1..]
  }

  /** strings.Split(s, "/") */
  function Split(s: string): (parts: seq<string>)
    ensures |parts| >= 1
  {
    if s == "" then [""] else SplitCons(s[0], Split(s[1..]))
  }

  /** The components path.Clean keeps of a rooted path: empty and "." parts vanish, ".." drops the
      component before it and is ignored at the root. */
  function Clean(parts: seq<string>): (p: Path) {
    if parts == [] then []
    else
      var init, last := Clean(parts[..|parts| - 1]), parts[|parts| - 1];
      if last == "" || last == "." then init
      else if last == ".." then (if init == [] then [] else init[..|init| - 1])
      else init + [last]
  }

  // ----- Names and rendering -----

  predicate HasForbidden(s: string) {
    '\\' in s || '\0' in s
  }

  predicate CleanName(c: string) {
    c != "" && c != "." && c != ".." && '/' !in c
  }

  /** A component storagePath lets through. */
  predicate StoredName(c: string) {
    CleanName(c) && !HasForbidden(c) && !(".vfs" <= c)
  }

  predicate CleanPath(p: Path) {
    forall i :: 0 <= i < |p| ==> CleanName(p[i])
  }

  predicate StoredPath(p: Path) {
    forall i :: 0 <= i < |p| ==> StoredName(p[i])
  }

  function Render(p: Path): (s: string)
    ensures s == "" || s[0] == '/'
  {
    if p == [] then "" else "/" + (p[0] + Render(p[1..]))
  }

  /** The stored string of an entry: directories carry a trailing slash. */
  function Stored(p: Path, isDir: bool): string {
    if p == [] then "/" else Render(p) + (if isDir then "/" else "")
  }

  function Parent(p: Path): Path
    requires p != []
  {
    p[..|p| - 1]
  }

  predicate StartsInSpace(name: string) {
    name != "" && IsSpace(name[0])
  }

  predicate EndsInSpace(name: string) {
    name != "" && IsSpace(name[|name| - 1])
  }

  // ----- storagePath and TransferPath -----

  /** storagePath; the directory flag only decides how the result is rendered. */
  function StoragePath(value: string): Option<Path> {
    Parse(TrimSpace(value))
  }

  predicate Reserved(part: string) {
    part == ".." || ".vfs" <= part
  }

  function Parse(s: string): Option<Path> {
    var parts := Split(s);
    if HasForbidden(s) || exists i :: 0 <= i < |parts| && Reserved(parts[i]) then None
    else Some(Clean(parts))
  }

  /** vfs.TransferPath with the string tests of the source. The source argument is the stored path of
      the item, whose trailing slash path.Clean removes. */
  function TransferPath(src: Path, srcIsDir: bool, dst: string): Option<Path> {
    var d := Clean(Split(TrimSpace(dst)));
    var source, target := Stored(src, false), Stored(d, false);
    if source == "/" || target == "/" || source == target ||
       target + "/" <= source || (srcIsDir && source + "/" <= target) || HasForbidden(target)
    then None
    else Some(d)
  }

  // ----- Rendering and splitting are inverse -----

  /** A slash-free name before the end or before a slash is one part. */
  lemma {:induction false} SplitName(c: string, rest: string)
    requires '/' !in c && (rest == "" || rest[0] == '/')
    ensures Split(c + rest) == [c] + Split(rest)[1..]
  {
    if c == "" {
      assert c + rest == rest;
    } else {
      SplitName(c[1..], rest);
      assert (c + rest)[1..] == c[1..] + rest;
      assert [c[0]] + c[1..] == c;
    }
  }

  lemma SplitStep(c: string, rest: string, tail: seq<string>)
    requires '/' !in c && (rest == "" || rest[0] == '/')
    requires Split(rest) == [""] + tail
    ensures Split("/" + (c + rest)) == [""] + ([c] + tail)
  {
    SplitName(c, rest);
    assert ("/" + (c + rest))[1..] == c + rest;
    assert ([""] + tail)[1..] == tail;
  }

  lemma {:induction false} SplitRender(p: Path)
    requires CleanPath(p)
    ensures Split(Render(p)) == [""] + p
  {
    if p != [] {
      SplitRender(p[1..]);
      SplitStep(p[0], Render(p[1..]), p[1..]);
      assert [p[0]] + p[1..] == p;
    }
  }

  /** Two stored entries with the same string are the same entry. */
  lemma {:induction false} RenderInjective(p: Path, q: Path)
    requires CleanPath(p) && CleanPath(q) && Render(p) == Render(q)
    ensures p == q
  {
    SplitRender(p);
    SplitRender(q);
    assert ([""] + p)[1..] == p && ([""] + q)[1..] == q;
  }

  lemma {:induction false} CleanKeeps(p: Path)
    requires CleanPath(p)
    ensures Clean(p) == p
  {
    if p != [] {
      CleanKeeps(Parent(p));
      assert p == Parent(p) + [p[|p| - 1]];
      assert CleanName(p[|p| - 1]);
    }
  }

  lemma CleanTrailing(parts: seq<string>)
    ensures Clean(parts + [""]) == Clean(parts)
  {
    assert (parts + [""])[..|parts|] == parts;
  }

  lemma {:induction false} SplitConcat(a: string, b: string)
    ensures Split(a + "/" + b) == Split(a) + Split(b)
  {
    if a == "" {
      assert a + "/" + b == "/" + b;
      assert ("/" + b)[1..] == b;
    } else {
      SplitConcat(a[1..], b);
      assert (a + "/" + b)[1..] == a[1..] + "/" + b;
      ConsConcat(a[0], Split(a[1..]), Split(b));
    }
  }

  lemma ConsConcat(c: char, r: seq<string>, s: seq<string>)
    requires r != []
    ensures SplitCons(c, r + s) == SplitCons(c, r) + s
  {
    assert (r + s)[1..] == r[1..] + s;
  }

  lemma EmptySplit()
    ensures Split("") == [""]
  {
  }

  // ----- Prefix tests -----

  lemma {:induction false} RenderAppend(p: Path, q: Path)
    ensures Render(p + q) == Render(p) + Render(q)
  {
    if p == [] {
      assert p + q == q;
    } else {
      assert (p + q)[1..] == p[1..] + q;
      RenderAppend(p[1..], q);
    }
  }

  /** A slash-terminated rendering is a string prefix of another one exactly for ancestors. */
  lemma {:induction false} DirPrefix(p: Path, q: Path)
    requires CleanPath(p) && CleanPath(q)
    ensures Render(p) + "/" <= Render(q) + "/" <==> p <= q
  {
    if p <= q {
      assert q == p + q[|p|..];
      RenderAppend(p, q[|p|..]);
      if |q| > |p| {
        assert Render(q[|p|..])[0] == '/';
      }
    } else if q != [] {
      if p[0] == q[0] {
        var a, b := Render(p[1..]) + "/", Render(q[1..]) + "/";
        assert Render(p) + "/" == ("/" + p[0]) + a;
        assert Render(q) + "/" == ("/" + p[0]) + b;
        CommonPrefix("/" + p[0], a, b);
        DirPrefix(p[1..], q[1..]);
        assert p == [p[0]] + p[1..] && q == [q[0]] + q[1..];
      } else {
        DifferentHeads(p, q);
      }
    }
  }

  lemma DifferentHeads(p: Path, q: Path)
    requires CleanPath(p) && CleanPath(q) && p != [] && q != [] && p[0] != q[0]
    ensures !(Render(p) + "/" <= Render(q) + "/")
  {
    var a, b := Render(p[1..]) + "/", Render(q[1..]) + "/";
    Regroup(p[0], Render(p[1..]));
    Regroup(q[0], Render(q[1..]));
    CommonPrefix("/", p[0] + a, q[0] + b);
    DifferentNames(p[0], a, q[0], b);
  }

  lemma Regroup(c: string, rest: string)
    ensures "/" + (c + rest) + "/" == "/" + (c + (rest + "/"))
  {
  }

  /** Different slash-free names, each followed by a slash, never extend one another. */
  lemma DifferentNames(c: string, a: string, d: string, b: string)
    requires '/' !in c && '/' !in d && c != d
    requires a != "" && a[0] == '/' && b != "" && b[0] == '/'
    ensures !(c + a <= d + b)
  {
    FirstSlashIs(c, a);
    FirstSlashIs(d, b);
    FirstSlashOfPrefix(c + a, d + b);
  }

  lemma CommonPrefix(s: string, a: string, b: string)
    ensures s + a <= s + b <==> a <= b
  {
    if s + a <= s + b {
      assert a == (s + a)[|s|..];
      assert b == (s + b)[|s|..];
    }
  }

  function FirstSlash(s: string): (n: nat)
    ensures n <= |s|
  {
    if s == "" || s[0] == '/' then 0 else 1 + FirstSlash(s[1..])
  }

  lemma {:induction false} FirstSlashIs(c: string, a: string)
    requires '/' !in c && a != "" && a[0] == '/'
    ensures FirstSlash(c + a) == |c| && (c + a)[..|c|] == c
  {
    if c == "" {
      assert c + a == a;
    } else {
      assert (c + a)[1..] == c[1..] + a;
      FirstSlashIs(c[1..], a);
    }
  }

  lemma {:induction false} FirstSlashOfPrefix(s: string, t: string)
    ensures s <= t && FirstSlash(s) < |s| ==> s[..FirstSlash(s)] == t[..FirstSlash(t)]
  {
    if s <= t && s != "" {
      FirstSlashOfPrefix(s[1..], t[1..]);
      if s[0] != '/' {
        assert s[..FirstSlash(s)] == [s[0]] + s[1..][..FirstSlash(s[1..])];
        assert t[..FirstSlash(t)] == [t[0]] + t[1..][..FirstSlash(t[1..])];
      }
    }
  }

  /** The two forms in which the drivers test for descendants with strings.HasPrefix: the stored path of
      a directory is a prefix of another stored path exactly for the directory itself and what lies below. */
  lemma {:induction false} StoredPrefix(dir: Path, q: Path, isDir: bool)
    requires CleanPath(dir) && CleanPath(q) && dir != [] && q != []
    ensures Stored(dir, true) <= Stored(q, isDir) <==> dir <= q && (dir != q || isDir)
  {
    DirPrefix(dir, q);
    if !isDir {
      assert Render(q) + "" == Render(q);
      var d, s := Render(dir) + "/", Render(q);
      if d <= s + "/" && |d| > |s| {
        assert d == s + "/";
        assert Render(dir) == d[..|d| - 1] && Render(q) == (s + "/")[..|s|];
        RenderInjective(dir, q);
      }
    }
  }

  /** TransferPath rejects exactly the root, the item itself, its ancestors, and, for a directory, its
      descendants. */
  lemma {:induction false} TransferPathDecidesAncestry(src: Path, srcIsDir: bool, dst: string)
    requires CleanPath(src)
    ensures
      var d := Clean(Split(TrimSpace(dst)));
      TransferPath(src, srcIsDir, dst) ==
        if src != [] && d != [] && !(d <= src) && !(srcIsDir && src <= d) && !HasForbidden(Render(d))
        then Some(d) else None
  {
    var d := Clean(Split(TrimSpace(dst)));
    CleanOfSplit(TrimSpace(dst));
    if src != [] { NotRoot(src); }
    if d != [] { NotRoot(d); }
    if src != [] && d != [] {
      assert Render(src) + "" == Render(src) && Render(d) + "" == Render(d);
      StoredPrefix(d, src, false);
      StoredPrefix(src, d, false);
      if Render(src) == Render(d) { RenderInjective(src, d); }
    }
  }

  lemma NotRoot(p: Path)
    requires p != [] && CleanPath(p)
    ensures Render(p) != "/"
  {
    assert CleanName(p[0]);
    assert |Render(p)| > 1;
  }

  // ----- The destination of a transfer -----

  lemma {:induction false} SplitOfPrefix(a: string, b: string)
    requires a <= b
    ensures |Split(a)| <= |Split(b)|
    ensures forall i :: 0 <= i < |Split(a)| ==> Split(a)[i] <= Split(b)[i]
  {
    if a != "" {
      assert a[0] == b[0] && a[1..] <= b[1..];
      SplitOfPrefix(a[1..], b[1..]);
      PartsOfPrefix(a[0], Split(a[1..]), Split(b[1..]));
      assert Split(a) == SplitCons(a[0], Split(a[1..])) && Split(b) == SplitCons(b[0], Split(b[1..]));
    }
  }

  lemma PartsOfPrefix(c: char, r: seq<string>, s: seq<string>)
    requires r != [] && |r| <= |s| && forall i :: 0 <= i < |r| ==> r[i] <= s[i]
    ensures forall i :: 0 <= i < |SplitCons(c, r)| ==> SplitCons(c, r)[i] <= SplitCons(c, s)[i]
  {
  }

  lemma PrefixOfStoredName(c: string, name: string)
    requires c <= name && StoredName(name) && CleanName(c)
    ensures StoredName(c)
  {
    assert forall x :: x in c ==> x in name;
  }

  lemma PrefixKeepsStoredNames(s: string, r: string)
    requires s <= r && forall k :: 0 <= k < |Split(r)| ==> Split(r)[k] == "" || StoredName(Split(r)[k])
    ensures StoredPath(Clean(Split(s)))
  {
    SplitOfPrefix(s, r);
    SplitHasNoSlash(s);
    CleanIsClean(Split(s));
    var d := Clean(Split(s));
    forall i | 0 <= i < |d| ensures StoredName(d[i]) {
      var k :| 0 <= k < |Split(s)| && Split(s)[k] == d[i];
      assert CleanName(d[i]);
      assert d[i] <= Split(r)[k];
      PrefixOfStoredName(d[i], Split(r)[k]);
    }
  }

  lemma StoredParts(p: Path)
    requires StoredPath(p)
    ensures forall k :: 0 <= k < |Split(Stored(p, false))| ==>
      Split(Stored(p, false))[k] == "" || StoredName(Split(Stored(p, false))[k])
  {
    SplitRender(p);
    if p != [] { assert Stored(p, false) == Render(p); }
  }

  /** TransferPath trims the string that storagePath has already cleaned, so a name may lose white space at
      its end; what is left still consists of stored names. */
  lemma TransferKeepsStoredNames(src: Path, srcIsDir: bool, p: Path)
    requires StoredPath(p) && CleanPath(src)
    ensures var d := TransferPath(src, srcIsDir, Stored(p, false)); d.Some? ==> StoredPath(d.value) && d.value != []
  {
    var r := Stored(p, false);
    StoredParts(p);
    TrimOfRooted(r);
    PrefixKeepsStoredNames(TrimSpace(r), r);
  }

  // ----- Trimming -----

  lemma {:induction false} TrimLeftDone(s: string)
    ensures TrimLeft(s) == "" || !IsSpace(TrimLeft(s)[0])
  {
    if s != "" && IsSpace(s[0]) { TrimLeftDone(s[1..]); }
  }

  lemma {:induction false} TrimRightDone(s: string)
    ensures TrimRight(s) == "" || !IsSpace(TrimRight(s)[|TrimRight(s)| - 1])
  {
    if s != "" && IsSpace(s[|s| - 1]) { TrimRightDone(s[..|s| - 1]); }
  }

  /** No white space is left at either end. */
  lemma TrimmedEnds(s: string)
    ensures var t := TrimSpace(s); t == "" || (!IsSpace(t[0]) && !IsSpace(t[|t| - 1]))
  {
    hide IsSpace;
    TrimLeftDone(s);
    TrimRightDone(TrimLeft(s));
  }

  lemma TrimLeftStays(s: string)
    ensures TrimLeft(s) == s <==> s == "" || !IsSpace(s[0])
  {
    if s != "" && IsSpace(s[0]) {
      assert |TrimLeft(s)| == |TrimLeft(s[1..])| <= |s| - 1;
    }
  }

  lemma TrimStays(s: string)
    ensures |TrimSpace(s)| <= |s|
    ensures TrimSpace(s) == s <==> s == "" || (!IsSpace(s[0]) && !IsSpace(s[|s| - 1]))
    ensures TrimSpace(s) != s ==> |TrimSpace(s)| < |s|
  {
    TrimLeftStays(s);
    var l := TrimLeft(s);
    if l != s {
      assert |l| < |s|;
    }
  }

  // ----- What Clean and Split leave -----

  lemma {:induction false} SplitHasNoSlash(s: string)
    ensures forall i :: 0 <= i < |Split(s)| ==> '/' !in Split(s)[i] && (forall c :: c in Split(s)[i] ==> c in s)
  {
    if s != "" {
      SplitHasNoSlash(s[1..]);
    }
  }

  lemma {:induction false} CleanOfSplit(s: string)
    ensures CleanPath(Clean(Split(s)))
  {
    SplitHasNoSlash(s);
    CleanIsClean(Split(s));
  }

  lemma {:induction false} CleanIsClean(parts: seq<string>)
    requires forall i :: 0 <= i < |parts| ==> '/' !in parts[i]
    ensures CleanPath(Clean(parts))
    ensures forall i :: 0 <= i < |Clean(parts)| ==> Clean(parts)[i] in parts
  {
    if parts != [] {
      var init := parts[..|parts| - 1];
      CleanIsClean(init);
      assert forall x :: x in init ==> x in parts;
    }
  }

  // ----- storagePath -----

  /** What storagePath accepts consists of stored names only. */
  lemma StoragePathYieldsStoredNames(value: string)
    ensures StoragePath(value).Some? ==> StoredPath(StoragePath(value).value)
  {
    var s := TrimSpace(value);
    if Parse(s).Some? {
      var p, parts := Clean(Split(s)), Split(s);
      SplitHasNoSlash(s);
      CleanIsClean(parts);
      forall i | 0 <= i < |p| ensures StoredName(p[i]) {
        PartIsStored(s, p[i]);
      }
    }
  }

  lemma PartIsStored(s: string, c: string)
    requires Parse(s).Some? && c in Split(s) && CleanName(c)
    ensures StoredName(c)
  {
    SplitHasNoSlash(s);
    var k :| 0 <= k < |Split(s)| && Split(s)[k] == c;
    assert !Reserved(Split(s)[k]);
    assert forall x :: x in Split(s)[k] ==> x in s;
  }

  /** storagePath is stable on the stored path of a directory. */
  lemma DirectoryStable(p: Path)
    requires StoredPath(p) && p != []
    ensures StoragePath(Stored(p, true)) == Some(p)
  {
    ParseOfRendered(p);
    UntrimmedWithSlash(Render(p));
  }

  /** storagePath is stable on the stored path of a file exactly when the file's name does not end in
      white space: TrimSpace removes that white space, while the slash that ended the argument of Create
      had protected it. */
  lemma FileStable(p: Path)
    requires StoredPath(p) && p != []
    ensures StoragePath(Stored(p, false)) == Some(p) <==> !EndsInSpace(p[|p| - 1])
  {
    assert Stored(p, false) == Render(p);
    RenderedStable(p);
  }

  lemma RenderedStable(p: Path)
    requires StoredPath(p) && p != []
    ensures StoragePath(Render(p)) == Some(p) <==> !EndsInSpace(p[|p| - 1])
  {
    RenderLast(p);
    TrimOfRooted(Render(p));
    if EndsInSpace(p[|p| - 1]) {
      TrimmedDiffers(Render(p), p);
    } else {
      ParseOfRendered(p);
    }
  }

  lemma TrimOfRooted(s: string)
    requires s != "" && s[0] == '/'
    ensures TrimSpace(s) == TrimRight(s)
  {
    assert !IsSpace(s[0]);
    assert TrimLeft(s) == s;
  }

  lemma ParseOfRendered(p: Path)
    requires StoredPath(p)
    ensures Parse(Render(p)) == Some(p) && Parse(Render(p) + "/") == Some(p)
  {
    SplitRender(p);
    SplitTrailingSlash(Render(p));
    RenderHasNoForbidden(p);
    Accepted(Render(p), p);
    Accepted(Render(p) + "/", p);
  }

  lemma UntrimmedWithSlash(s: string)
    requires s != "" && s[0] == '/'
    ensures TrimSpace(s + "/") == s + "/"
  {
    TrimOfRooted(s + "/");
    assert (s + "/")[|s|] == '/';
  }

  lemma Accepted(s: string, p: Path)
    requires StoredPath(p) && !HasForbidden(s)
    requires Split(s) == [""] + p || Split(s) == [""] + p + [""]
    ensures Parse(s) == Some(p)
  {
    CleanKeeps(p);
    CleanLeading(p);
    CleanTrailing([""] + p);
    var parts := Split(s);
    forall i | 0 <= i < |parts| ensures !Reserved(parts[i]) {
      assert parts[i] == "" || StoredName(parts[i]);
    }
  }

  /** A string with white space at its end names something else once trimmed: too few characters are left. */
  lemma TrimmedDiffers(s: string, p: Path)
    requires s != "" && s[0] == '/' && TrimRight(s) != s && s == Render(p)
    ensures StoragePath(s) != Some(p)
  {
    var t := TrimSpace(s);
    TrimOfRooted(s);
    if t != "" {
      assert t[0] == '/';
      assert Split(t) == [""] + Split(t[1..]);
      CleanLeading(Split(t[1..]));
      RenderedLength(t[1..]);
    }
    assert |Render(Clean(Split(t)))| <= |t| < |s|;
  }

  lemma {:induction false} SplitTrailingSlash(s: string)
    ensures Split(s + "/") == Split(s) + [""]
  {
    if s == "" {
      assert s + "/" == "/";
    } else {
      SplitTrailingSlash(s[1..]);
      assert (s + "/")[1..] == s[1..] + "/";
    }
  }

  lemma {:induction false} RenderHasNoForbidden(p: Path)
    requires StoredPath(p)
    ensures !HasForbidden(Render(p))
  {
    if p != [] {
      RenderHasNoForbidden(p[1..]);
    }
  }

  lemma RenderLast(p: Path)
    requires CleanPath(p) && p != []
    ensures Render(p) != "" && Render(p)[|Render(p)| - 1] == p[|p| - 1][|p[|p| - 1]| - 1]
  {
    var last := [p[|p| - 1]];
    RenderAppend(Parent(p), last);
    assert p == Parent(p) + last;
    assert Render(last) == "/" + last[0] + "";
  }

  lemma {:induction false} CleanLeading(parts: seq<string>)
    ensures Clean([""] + parts) == Clean(parts)
  {
    if parts != [] {
      CleanLeading(parts[..|parts| - 1]);
      assert ([""] + parts)[..|parts|] == [""] + parts[..|parts| - 1];
    }
  }

  function Weight(parts: seq<string>): nat {
    if parts == [] then 0 else Weight(parts[..|parts| - 1]) + |parts[|parts| - 1]| + 1
  }

  lemma {:induction false} WeightCons(c: string, parts: seq<string>)
    ensures Weight([c] + parts) == |c| + 1 + Weight(parts)
  {
    if parts == [] {
      assert [c] + parts == [c];
      assert [c][..0] == [];
    } else {
      WeightCons(c, parts[..|parts| - 1]);
      assert ([c] + parts)[..|parts|] == [c] + parts[..|parts| - 1];
    }
  }

  lemma {:induction false} SplitWeight(s: string)
    ensures Weight(Split(s)) == |s| + 1
  {
    if s == "" {
      assert [""][..0] == [];
    } else {
      SplitWeight(s[1..]);
      var rest := Split(s[1..]);
      if s[0] == '/' {
        WeightCons("", rest);
      } else {
        assert rest == [rest[0]] + rest[1..];
        WeightCons(rest[0], rest[1..]);
        WeightCons([s[0]] + rest[0], rest[1..]);
      }
    }
  }

  lemma {:induction false} CleanWeight(parts: seq<string>)
    ensures |Render(Clean(parts))| <= Weight(parts)
  {
    if parts != [] {
      var init, last := Clean(parts[..|parts| - 1]), parts[|parts| - 1];
      CleanWeight(parts[..|parts| - 1]);
      RenderAppend(init, [last]);
      assert Render([last]) == "/" + last + "";
      if init != [] {
        RenderAppend(Parent(init), [init[|init| - 1]]);
        assert init == Parent(init) + [init[|init| - 1]];
      }
    }
  }

  lemma RenderedLength(s: string)
    ensures |Render(Clean(Split(s)))| <= |s| + 1
  {
    SplitWeight(s);
    CleanWeight(Split(s));
  }

  // ----- What cleaning a path means -----

  /** The rules of path.Clean for a rooted path, one at a time: an empty part or "." goes; ".." goes together with the
      name before it; and ".." at the root goes. */
  predicate ReducesAt(a: seq<string>, b: seq<string>, i: nat) {
    i < |a| &&
    ((a[i] in ["", "."] && b == a[..i] + a[i + 1..])
     || (i + 1 < |a| && CleanName(a[i]) && a[i + 1] == ".." && b == a[..i] + a[i + 2..])
     || (i == 0 && a[0] == ".." && b == a[1..]))
  }

  ghost predicate Reduces(a: seq<string>, b: seq<string>) {
    exists i: nat :: ReducesAt(a, b, i)
  }

  /** The rules lead from the parts to p, in any order. */
  ghost predicate ReducesTo(parts: seq<string>, p: seq<string>) {
    exists chain: seq<seq<string>> :: Reduction(chain) && chain[0] == parts && chain[|chain| - 1] == p
  }

  ghost predicate Reduction(chain: seq<seq<string>>) {
    chain != [] && forall j :: 0 <= j < |chain| - 1 ==> Reduces(chain[j], chain[j + 1])
  }

  /** What comes after does not depend on how the parts before it were spelt. */
  lemma {:induction false} CleanCongruent(p: seq<string>, q: seq<string>, b: seq<string>)
    requires Clean(p) == Clean(q)
    ensures Clean(p + b) == Clean(q + b)
  {
    if b == [] {
      assert p + b == p && q + b == q;
    } else {
      var init := b[..|b| - 1];
      CleanCongruent(p, q, init);
      assert (p + b)[..|p + b| - 1] == p + init && (q + b)[..|q + b| - 1] == q + init;
    }
  }

  /** ".." takes back the name before it, and nothing else. */
  lemma CleanTakesBack(a: seq<string>, x: string, b: seq<string>)
    requires CleanName(x)
    ensures Clean(a + [x, ".."] + b) == Clean(a + b)
  {
    assert (a + [x, ".."])[..|a| + 1] == a + [x] && (a + [x])[..|a|] == a;
    assert Clean(a + [x]) == Clean(a) + [x];
    assert Clean(a + [x, ".."]) == Clean(a);
    CleanCongruent(a + [x, ".."], a, b);
  }

  /** Empty parts and dots vanish wherever they are. */
  lemma CleanSkips(a: seq<string>, x: string, b: seq<string>)
    requires x == "" || x == "."
    ensures Clean(a + [x] + b) == Clean(a + b)
  {
    assert (a + [x])[..|a|] == a;
    CleanCongruent(a + [x], a, b);
  }

  /** There is no way up from the root. */
  lemma CleanAtRoot(b: seq<string>)
    ensures Clean([".."] + b) == Clean(b)
  {
    assert [".."][..0] == [];
    CleanCongruent([".."], [], b);
    assert [] + b == b;
  }

  lemma CleanStep(a: seq<string>, b: seq<string>, i: nat)
    requires ReducesAt(a, b, i)
    ensures Clean(a) == Clean(b) && |b| < |a|
  {
    hide Clean;
    if a[i] in ["", "."] && b == a[..i] + a[i + 1..] {
      assert a == a[..i] + [a[i]] + a[i + 1..];
      CleanSkips(a[..i], a[i], a[i + 1..]);
    } else if i + 1 < |a| && CleanName(a[i]) && a[i + 1] == ".." && b == a[..i] + a[i + 2..] {
      assert a == a[..i] + [a[i], ".."] + a[i + 2..];
      CleanTakesBack(a[..i], a[i], a[i + 2..]);
    } else {
      assert a == [".."] + a[1..];
      CleanAtRoot(a[1..]);
    }
  }

  lemma {:induction false} ChainCleans(chain: seq<seq<string>>)
    requires Reduction(chain) && CleanPath(chain[|chain| - 1])
    ensures Clean(chain[0]) == chain[|chain| - 1]
    decreases |chain|
  {
    hide Clean;
    if |chain| == 1 {
      CleanKeeps(chain[0]);
    } else {
      assert Reduces(chain[0], chain[1]);
      var i: nat :| ReducesAt(chain[0], chain[1], i);
      CleanStep(chain[0], chain[1], i);
      var rest := chain[1..];
      forall j | 0 <= j < |rest| - 1 ensures Reduces(rest[j], rest[j + 1]) {
        assert Reduces(chain[j + 1], chain[j + 2]);
      }
      ChainCleans(rest);
    }
  }

  /** Parts that no rule applies to are a clean path. */
  lemma {:induction false} FirstRule(parts: seq<string>, n: nat) returns (next: seq<string>)
    requires n < |parts| && CleanPath(parts[..n]) && !CleanName(parts[n]) && '/' !in parts[n]
    ensures Reduces(parts, next) && |next| < |parts| && forall x :: x in next ==> x in parts
  {
    if parts[n] in ["", "."] {
      next := parts[..n] + parts[n + 1..];
      assert ReducesAt(parts, next, n);
    } else if n == 0 {
      next := parts[1..];
      assert ReducesAt(parts, next, 0);
    } else {
      next := parts[..n - 1] + parts[n + 1..];
      assert CleanName(parts[..n][n - 1]);
      assert ReducesAt(parts, next, n - 1);
    }
  }

  lemma {:induction false} CleanReached(parts: seq<string>) returns (chain: seq<seq<string>>)
    requires forall x :: x in parts ==> '/' !in x
    ensures Reduction(chain) && chain[0] == parts && CleanPath(chain[|chain| - 1])
    decreases |parts|
  {
    if n: nat :| n < |parts| && CleanPath(parts[..n]) && !CleanName(parts[n]) {
      var next := FirstRule(parts, n);
      var rest := CleanReached(next);
      chain := [parts] + rest;
      forall j | 0 <= j < |chain| - 1 ensures Reduces(chain[j], chain[j + 1]) {
        if j > 0 { assert Reduces(rest[j - 1], rest[j]); }
      }
    } else {
      AllClean(parts, |parts|);
      chain := [parts];
    }
  }

  lemma {:induction false} AllClean(parts: seq<string>, n: nat)
    requires n <= |parts| && forall k: nat :: k < |parts| && CleanPath(parts[..k]) ==> CleanName(parts[k])
    ensures CleanPath(parts[..n])
    ensures n == |parts| ==> CleanPath(parts)
  {
    if n > 0 {
      AllClean(parts, n - 1);
      forall i | 0 <= i < n ensures CleanName(parts[..n][i]) {
        if i < n - 1 { assert parts[..n - 1][i] == parts[i]; }
      }
    }
    assert parts[..|parts|] == parts;
  }

  /** Clean is what the rules lead to when none applies any more, in whatever order they are applied. */
  lemma CleanIff(parts: seq<string>, p: Path)
    requires forall x :: x in parts ==> '/' !in x
    ensures Clean(parts) == p <==> CleanPath(p) && ReducesTo(parts, p)
  {
    hide Clean;
    var chain := CleanReached(parts);
    ChainCleans(chain);
    if CleanPath(p) && ReducesTo(parts, p) {
      var other :| Reduction(other) && other[0] == parts && other[|other| - 1] == p;
      ChainCleans(other);
    }
  }

  /** strings.TrimSpace takes away the white space around the rest, and nothing else. */
  lemma TrimSpaceIs(l: string, t: string, r: string)
    requires forall i :: 0 <= i < |l| ==> IsSpace(l[i])
    requires forall i :: 0 <= i < |r| ==> IsSpace(r[i])
    requires t == "" || (!IsSpace(t[0]) && !IsSpace(t[|t| - 1]))
    ensures TrimSpace(l + t + r) == t
  {
    hide IsSpace, TrimLeft, TrimRight;
    var rest := t + r;
    TrimLeftOf(l, rest);
    assert l + t + r == l + rest;
    if t == "" {
      TrimLeftOf(r, "");
      assert rest == r == r + "";
      TrimNothing();
    } else {
      assert rest[0] == t[0];
      TrimLeftStays(rest);
      TrimRightOf(t, r);
    }
  }

  lemma TrimNothing()
    ensures TrimLeft("") == "" && TrimRight("") == ""
  {
  }

  lemma {:induction false} TrimLeftOf(l: string, s: string)
    requires forall i :: 0 <= i < |l| ==> IsSpace(l[i])
    ensures TrimLeft(l + s) == TrimLeft(s)
  {
    hide IsSpace;
    if l == "" {
      assert l + s == s;
    } else {
      TrimLeftOf(l[1..], s);
      assert (l + s)[1..] == l[1..] + s && (l + s)[0] == l[0];
    }
  }

  lemma {:induction false} TrimRightOf(t: string, r: string)
    requires t != "" && !IsSpace(t[|t| - 1]) && forall i :: 0 <= i < |r| ==> IsSpace(r[i])
    ensures TrimRight(t + r) == t
    decreases |r|
  {
    hide IsSpace;
    if r == "" {
      assert t + r == t;
    } else {
      TrimRightOf(t, r[..|r| - 1]);
      assert (t + r)[..|t + r| - 1] == t + r[..|r| - 1] && (t + r)[|t + r| - 1] == r[|r| - 1];
    }
  }

  /** TransferPath goes where the rules for paths lead from the trimmed argument, unless that is the root, the item
      itself, an ancestor or, for a directory, a descendant, or holds a forbidden character. */
  lemma TransferPathReads(src: Path, srcIsDir: bool, l: string, t: string, r: string, d: Path)
    requires CleanPath(src) && CleanPath(d) && ReducesTo(Split(t), d)
    requires forall i :: 0 <= i < |l| ==> IsSpace(l[i])
    requires forall i :: 0 <= i < |r| ==> IsSpace(r[i])
    requires t == "" || (!IsSpace(t[0]) && !IsSpace(t[|t| - 1]))
    ensures TransferPath(src, srcIsDir, l + t + r) ==
      if src == [] || d == [] || d <= src || (srcIsDir && src <= d) || '\\' in Render(d) || '\0' in Render(d) then None
      else Some(d)
  {
    hide Clean, Split, TrimSpace, IsSpace, TransferPath, ReducesTo;
    TrimSpaceIs(l, t, r);
    SplitHasNoSlash(t);
    CleanIff(Split(t), d);
    TransferPathDecidesAncestry(src, srcIsDir, l + t + r);
  }

  /** storagePath goes where the same rules lead from the trimmed argument, unless that holds a backslash or a zero
      byte, a ".." or a part that begins with ".vfs". */
  lemma StoragePathReads(l: string, t: string, r: string, p: Path)
    requires CleanPath(p) && ReducesTo(Split(t), p)
    requires forall i :: 0 <= i < |l| ==> IsSpace(l[i])
    requires forall i :: 0 <= i < |r| ==> IsSpace(r[i])
    requires t == "" || (!IsSpace(t[0]) && !IsSpace(t[|t| - 1]))
    ensures StoragePath(l + t + r) ==
      if '\\' in t || '\0' in t || ".." in Split(t) || exists i :: 0 <= i < |Split(t)| && ".vfs" <= Split(t)[i] then None
      else Some(p)
  {
    hide Clean, Split, TrimSpace, IsSpace, ReducesTo;
    TrimSpaceIs(l, t, r);
    SplitHasNoSlash(t);
    CleanIff(Split(t), p);
  }

  /** An inner ".." takes back one name. */
  lemma InnerUp()
    ensures Clean(Split("/docs/a/../b")) == ["docs", "b"]
  {
    hide Clean, Split;
    var parts := ["", "docs", "a", "..", "b"];
    assert "" + "/" + "docs" == "/docs" && "/docs" + "/" + "a" == "/docs/a";
    assert "/docs/a" + "/" + ".." == "/docs/a/.." && "/docs/a/.." + "/" + "b" == "/docs/a/../b";
    SplitMore("", "docs");
    EmptySplit();
    SplitMore("/docs", "a");
    SplitMore("/docs/a", "..");
    SplitMore("/docs/a/..", "b");
    assert Split("/docs/a/../b") == [""] + ["docs"] + ["a"] + [".."] + ["b"] == ["", "docs"] + ["a", ".."] + ["b"];
    CleanTakesBack(["", "docs"], "a", ["b"]);
    assert ["", "docs"] + ["b"] == [""] + ["docs", "b"];
    CleanLeading(["docs", "b"]);
    CleanKeeps(["docs", "b"]);
  }

  lemma SplitOne(c: string)
    requires '/' !in c
    ensures Split(c) == [c]
  {
    hide Split;
    SplitName(c, "");
    assert c + "" == c;
    EmptySplit();
  }

  /** One more name after a slash. */
  lemma SplitMore(s: string, name: string)
    requires '/' !in name
    ensures Split(s + "/" + name) == Split(s) + [name]
  {
    hide Split;
    SplitConcat(s, name);
    SplitOne(name);
  }
}
