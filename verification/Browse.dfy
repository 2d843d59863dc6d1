/** The directory browser: _normalise and _build_listing in app/api/browse.py. */
module Browse {
  import opened Basics
  import opened Records
  import opened Sorting

  datatype Kind = File | Directory

  datatype BrowseEntry = BrowseEntry(name: string, kind: Kind, size: nat, chunkCount: nat, childCount: nat, fullPath: string)

  // ----- paths -----

  function TrimLeft(s: string): string {
    if s != [] && s[0] == '/' then TrimLeft(s[1..]) else s
  }

  function TrimRight(s: string): string {
    if s != [] && s[|s| - 1] == '/' then TrimRight(s[..|s| - 1]) else s
  }

  /** Starts with a slash and, except for the root, does not end with one. */
  function Normalise(path: string): string {
    "/" + TrimRight(TrimLeft(path))
  }

  function Prefix(dir: string): string {
    if dir == "/" then dir else dir + "/"
  }

  /** The first slash, or -1. */
  function Find(s: string): (k: int)
    ensures -1 <= k < |s|
    ensures k == -1 ==> '/' !in s
    ensures k >= 0 ==> s[k] == '/' && '/' !in s[..k]
  {
    if s == [] then -1
    else if s[0] == '/' then 0
    else
      var k := Find(s[1..]);
      if k == -1 then -1 else
        assert s[..k + 1] == [s[0]] + s[1..][..k];
        k + 1
  }

  /** The directory below prefix that a path descends into. */
  function DirName(prefix: string, path: string): Option<string> {
    if !(prefix <= path) then None else
      var relative := path[|prefix|..];
      var slash := Find(relative);
      if slash == -1 then None else Some(relative[..slash])
  }

  predicate IsFileChild(prefix: string, path: string) {
    prefix <= path && path != prefix && Find(path[|prefix|..]) == -1
  }

  /** An absolute path without empty components. */
  predicate Clean(p: string) {
    && |p| >= 2 && p[0] == '/' && p[|p| - 1] != '/'
    && forall i :: 0 <= i < |p| - 1 ==> !(p[i] == '/' && p[i + 1] == '/')
  }

  predicate IsDir(d: string) {
    d == "/" || Clean(d)
  }

  // ----- the listing as a function -----

  function FileEntry(prefix: string, f: FileRecord): BrowseEntry
    requires prefix <= f.path
  {
    BrowseEntry(f.path[|prefix|..], File, f.size, |f.hashes|, 0, f.path)
  }

  function DirEntry(prefix: string, name: string, count: nat): BrowseEntry {
    BrowseEntry(name, Directory, 0, 0, count, Normalise(prefix + name))
  }

  function FileEntries(files: seq<FileRecord>, prefix: string): seq<BrowseEntry>
    decreases |files|
  {
    if files == [] then [] else
      var f := files[|files| - 1];
      FileEntries(files[..|files| - 1], prefix) + if IsFileChild(prefix, f.path) then [FileEntry(prefix, f)] else []
  }

  function Dirs(files: seq<FileRecord>, prefix: string): map<string, nat>
    decreases |files|
  {
    if files == [] then map[] else
      var dirs := Dirs(files[..|files| - 1], prefix);
      match DirName(prefix, files[|files| - 1].path)
      case None => dirs
      case Some(name) => dirs[name := (if name in dirs then dirs[name] else 0) + 1]
  }

  function DirEntries(prefix: string, dirs: map<string, nat>, names: seq<string>): seq<BrowseEntry> {
    Map(name => DirEntry(prefix, name, if name in dirs then dirs[name] else 0), names)
  }

  function ByName(): (BrowseEntry, BrowseEntry) -> bool {
    (a: BrowseEntry, b: BrowseEntry) => StringLeq(a.name, b.name)
  }

  ghost function DirListing(files: seq<FileRecord>, prefix: string): seq<BrowseEntry> {
    DirEntries(prefix, Dirs(files, prefix), SortedKeys(Dirs(files, prefix).Keys))
  }

  ghost function Listing(files: seq<FileRecord>, browsePath: string): seq<BrowseEntry> {
    var prefix := Prefix(Normalise(browsePath));
    DirListing(files, prefix) + Sorted(ByName(), FileEntries(files, prefix))
  }

  /** The scan over the records: direct files are collected, deeper ones counted by directory. */
  method Collect(files: seq<FileRecord>, prefix: string) returns (dirs: map<string, nat>, fileEntries: seq<BrowseEntry>)
    ensures dirs == Dirs(files, prefix) && fileEntries == FileEntries(files, prefix)
  {
    dirs, fileEntries := map[], [];
    for i := 0 to |files|
      invariant dirs == Dirs(files[..i], prefix)
      invariant fileEntries == FileEntries(files[..i], prefix)
    {
      var sf := files[i];
      assert files[..i + 1][..i] == files[..i];
      if !(prefix <= sf.path) {
        continue;
      }
      var relative := sf.path[|prefix|..];
      if relative == [] {
        assert sf.path == prefix;
        continue;
      }
      var slashPos := Find(relative);
      if slashPos == -1 {
        fileEntries := fileEntries + [BrowseEntry(relative, File, sf.size, |sf.hashes|, 0, sf.path)];
      } else {
        var dirName := relative[..slashPos];
        dirs := dirs[dirName := (if dirName in dirs then dirs[dirName] else 0) + 1];
      }
    }
    assert files[..|files|] == files;
  }

  method BuildListing(files: seq<FileRecord>, browsePath: string) returns (entries: seq<BrowseEntry>)
    ensures entries == Listing(files, browsePath)
  {
    var path := Normalise(browsePath);
    var prefix := if path == "/" then path else path + "/";
    var dirs, fileEntries := Collect(files, prefix);
    var names := SortKeys(dirs.Keys);
    entries := DirEntries(prefix, dirs, names) + Sorted(ByName(), fileEntries);
  }

  // ----- what a listing counts -----

  /** The paths that lie in or below a directory, in record order. */
  function Below(files: seq<FileRecord>, prefix: string): seq<string>
    decreases |files|
  {
    if files == [] then [] else
      var path := files[|files| - 1].path;
      Below(files[..|files| - 1], prefix) + if prefix <= path then [path] else []
  }

  lemma {:induction false} FindIs(s: string, j: nat)
    requires j < |s| && s[j] == '/' && '/' !in s[..j]
    ensures Find(s) == j
  {
    if j == 0 {
    } else {
      assert s[..j] == [s[0]] + s[1..][..j - 1];
      assert s[0] in s[..j];
      FindIs(s[1..], j - 1);
    }
  }

  lemma NameIff(prefix: string, name: string, path: string)
    ensures DirName(prefix, path) == Some(name) <==> '/' !in name && prefix + name + "/" <= path
  {
    if DirName(prefix, path) == Some(name) {
      var relative := path[|prefix|..];
      assert path == prefix + relative;
      assert relative[..|name| + 1] == name + "/";
      assert path[..|prefix| + |name| + 1] == prefix + name + "/";
    }
    if '/' !in name && prefix + name + "/" <= path {
      var relative := path[|prefix|..];
      assert path[..|prefix|] == (prefix + name + "/")[..|prefix|] == prefix;
      assert forall i :: 0 <= i <= |name| ==> relative[i] == (prefix + name + "/")[|prefix| + i];
      assert relative[|name|] == '/' && relative[..|name|] == name;
      FindIs(relative, |name|);
    }
  }

  /** A directory is listed exactly when some file lies in or below it, with the number of such files. */
  lemma {:induction false} DirsCount(files: seq<FileRecord>, prefix: string, name: string)
    ensures name in Dirs(files, prefix) <==> '/' !in name && Below(files, prefix + name + "/") != []
    ensures name in Dirs(files, prefix) ==> Dirs(files, prefix)[name] == |Below(files, prefix + name + "/")|
    decreases |files|
  {
    if files == [] {
    } else {
      DirsCount(files[..|files| - 1], prefix, name);
      NameIff(prefix, name, files[|files| - 1].path);
    }
  }

  // ----- clean paths -----

  lemma NormaliseClean(d: string)
    requires IsDir(d)
    ensures Normalise(d) == d
  {
    if d == "/" {
      assert TrimLeft(d) == TrimLeft([]);
    } else {
      assert TrimLeft(d) == TrimLeft(d[1..]) == d[1..];
    }
  }

  ghost predicate Slashes(s: string) {
    forall i :: 0 <= i < |s| ==> s[i] == '/'
  }

  lemma {:induction false} TrimLeftIs(s: string) returns (a: string)
    ensures Slashes(a) && s == a + TrimLeft(s) && (TrimLeft(s) != [] ==> TrimLeft(s)[0] != '/')
  {
    a := [];
    if s == [] || s[0] != '/' {
    } else {
      var rest := TrimLeftIs(s[1..]);
      a := [s[0]] + rest;
    }
  }

  lemma {:induction false} TrimRightIs(s: string) returns (b: string)
    ensures Slashes(b) && s == TrimRight(s) + b && TrimRight(s) <= s
    ensures TrimRight(s) != [] ==> TrimRight(s)[|TrimRight(s)| - 1] != '/'
    decreases |s|
  {
    b := [];
    if s == [] || s[|s| - 1] != '/' {
    } else {
      var rest := TrimRightIs(s[..|s| - 1]);
      b := rest + [s[|s| - 1]];
      assert s == s[..|s| - 1] + [s[|s| - 1]];
    }
  }

  /** Normalising takes all slashes off both ends and puts one before what is left. */
  lemma NormaliseStrips(path: string) returns (a: string, core: string, b: string)
    ensures Normalise(path) == "/" + core && path == a + core + b && Slashes(a) && Slashes(b)
    ensures core != [] ==> core[0] != '/' && core[|core| - 1] != '/'
  {
    a := TrimLeftIs(path);
    b := TrimRightIs(TrimLeft(path));
    core := TrimRight(TrimLeft(path));
    assert core != [] ==> core[0] == TrimLeft(path)[0];
  }

  lemma CleanPrefix(path: string, n: nat)
    requires Clean(path) && 2 <= n < |path| && path[n] == '/'
    ensures Clean(path[..n])
  {
    assert path[n - 1] != '/';
  }

  /** Below a directory a clean path goes on with a non-empty name, of a file or of a directory. */
  lemma CleanStep(dir: string, path: string)
    requires IsDir(dir) && Clean(path) && Prefix(dir) <= path
    ensures path != Prefix(dir) && path[|Prefix(dir)|] != '/'
    ensures match DirName(Prefix(dir), path)
            case None => IsFileChild(Prefix(dir), path)
            case Some(name) =>
              && name != [] && '/' !in name && Clean(Prefix(dir) + name)
              && Prefix(dir) + name + "/" <= path
  {
    var prefix := Prefix(dir);
    assert path[..|prefix|] == prefix;
    assert path[|prefix| - 1] == '/';
    match DirName(prefix, path)
    case None =>
    case Some(name) =>
      NameIff(prefix, name, path);
      CleanPrefix(path, |prefix| + |name|);
      assert path[..|prefix| + |name|] == (prefix + name + "/")[..|prefix| + |name|] == prefix + name;
  }

  ghost predicate AllClean(files: seq<FileRecord>) {
    forall i :: 0 <= i < |files| ==> Clean(files[i].path)
  }

  function Longest(files: seq<FileRecord>): nat {
    if files == [] then 0 else
      var rest := Longest(files[..|files| - 1]);
      if |files[|files| - 1].path| > rest then |files[|files| - 1].path| else rest
  }

  lemma {:induction false} BelowIsListed(files: seq<FileRecord>, prefix: string, i: nat)
    requires i < |Below(files, prefix)|
    ensures var path := Below(files, prefix)[i];
            prefix <= path && |path| <= Longest(files) && exists k :: 0 <= k < |files| && files[k].path == path
    decreases |files|
  {
    var front := files[..|files| - 1];
    if i == |Below(front, prefix)| {
    } else {
      BelowIsListed(front, prefix, i);
      var k :| 0 <= k < |front| && front[k].path == Below(front, prefix)[i];
      assert files[k].path == Below(files, prefix)[i];
    }
  }

  // ----- descending through the listings -----

  /** Every directory entry leads strictly down, to a directory that holds some file. */
  ghost predicate Descends(files: seq<FileRecord>, entries: seq<BrowseEntry>, above: nat) {
    forall i :: 0 <= i < |entries| && entries[i].kind.Directory? ==>
      Clean(entries[i].fullPath) && above < |entries[i].fullPath| <= Longest(files)
  }

  lemma NamedDirectory(files: seq<FileRecord>, dir: string, name: string)
    requires AllClean(files) && IsDir(dir) && name in Dirs(files, Prefix(dir))
    ensures Clean(Prefix(dir) + name) && Normalise(Prefix(dir) + name) == Prefix(dir) + name
    ensures |dir| < |Prefix(dir) + name| <= Longest(files)
  {
    var prefix := Prefix(dir);
    DirsCount(files, prefix, name);
    BelowIsListed(files, prefix + name + "/", 0);
    var path := Below(files, prefix + name + "/")[0];
    NameIff(prefix, name, path);
    assert path[..|prefix|] == (prefix + name + "/")[..|prefix|] == prefix;
    CleanStep(dir, path);
    NormaliseClean(prefix + name);
  }

  ghost predicate OnlyFiles(entries: seq<BrowseEntry>) {
    forall i :: 0 <= i < |entries| ==> entries[i].kind == File
  }

  lemma {:induction false} FileEntriesAreFiles(files: seq<FileRecord>, prefix: string)
    ensures OnlyFiles(FileEntries(files, prefix))
    decreases |files|
  {
    if files == [] {
    } else {
      FileEntriesAreFiles(files[..|files| - 1], prefix);
    }
  }

  lemma NameOrder()
    ensures TotalPreorder(ByName())
  {
    forall a: BrowseEntry, b: BrowseEntry {
      StringTotal(a.name, b.name);
    }
    forall a: BrowseEntry, b: BrowseEntry, c: BrowseEntry | StringLeq(a.name, b.name) && StringLeq(b.name, c.name) {
      StringTransitive(a.name, b.name, c.name);
    }
  }

  lemma SortedFiles(files: seq<FileRecord>, prefix: string)
    ensures OnlyFiles(Sorted(ByName(), FileEntries(files, prefix)))
  {
    NameOrder();
    FileEntriesAreFiles(files, prefix);
    var entries := Sorted(ByName(), FileEntries(files, prefix));
    forall i | 0 <= i < |entries|
      ensures entries[i].kind == File
    {
      SortedMember(ByName(), FileEntries(files, prefix), i);
    }
  }

  lemma ListedIn(files: seq<FileRecord>, browsePath: string, e: BrowseEntry)
    ensures var prefix := Prefix(Normalise(browsePath));
            e in Listing(files, browsePath) <==>
              if e.kind.Directory? then e in DirListing(files, prefix) else e in FileEntries(files, prefix)
  {
    var prefix := Prefix(Normalise(browsePath));
    var unsorted := FileEntries(files, prefix);
    NameOrder();
    FileEntriesAreFiles(files, prefix);
    SortedIsSorted(ByName(), unsorted);
    assert e in Sorted(ByName(), unsorted) <==> e in multiset(Sorted(ByName(), unsorted));
    assert e in unsorted <==> e in multiset(unsorted);
  }

  lemma ListedDirectory(files: seq<FileRecord>, dir: string, e: BrowseEntry) returns (name: string)
    requires IsDir(dir)
    ensures e in Listing(files, dir) && e.kind.Directory? ==>
              name in Dirs(files, Prefix(dir)) && e == DirEntry(Prefix(dir), name, Dirs(files, Prefix(dir))[name])
  {
    name := "";
    NormaliseClean(dir);
    ListedIn(files, dir, e);
    if e in Listing(files, dir) && e.kind.Directory? {
      var names := SortedKeys(Dirs(files, Prefix(dir)).Keys);
      SortedKeysAre(Dirs(files, Prefix(dir)).Keys);
      var i :| 0 <= i < |names| && DirListing(files, Prefix(dir))[i] == e;
      name := names[i];
      assert name in names;
    }
  }

  lemma ListingDescends(files: seq<FileRecord>, dir: string)
    requires AllClean(files) && IsDir(dir)
    ensures Descends(files, Listing(files, dir), |dir|)
  {
    forall i | 0 <= i < |Listing(files, dir)| && Listing(files, dir)[i].kind.Directory?
      ensures var path := Listing(files, dir)[i].fullPath; Clean(path) && |dir| < |path| <= Longest(files)
    {
      var name := ListedDirectory(files, dir, Listing(files, dir)[i]);
      NamedDirectory(files, dir, name);
    }
  }

  /** What a client sees that opens every directory entry, starting from one directory. */
  ghost function Walk(files: seq<FileRecord>, dir: string): seq<string>
    requires AllClean(files) && IsDir(dir)
    decreases Longest(files) - |dir|, 1, 0
  {
    ListingDescends(files, dir);
    WalkEntries(files, Listing(files, dir), |dir|)
  }

  ghost function WalkEntries(files: seq<FileRecord>, entries: seq<BrowseEntry>, above: nat): seq<string>
    requires AllClean(files) && Descends(files, entries, above)
    decreases Longest(files) - above, 0, |entries|
  {
    if entries == [] then [] else
      (if entries[0].kind.File? then [entries[0].fullPath] else Walk(files, entries[0].fullPath))
      + WalkEntries(files, entries[1..], above)
  }

  // ----- the walk meets every file once -----

  ghost function Share(files: seq<FileRecord>, e: BrowseEntry, x: string): nat {
    if e.kind.Directory? then multiset(Below(files, e.fullPath + "/"))[x] else if e.fullPath == x then 1 else 0
  }

  /** How often x is met below the entries, when every directory delivers all it holds. */
  ghost function Expected(files: seq<FileRecord>, entries: seq<BrowseEntry>, x: string): nat {
    if entries == [] then 0 else Share(files, entries[0], x) + Expected(files, entries[1..], x)
  }

  lemma {:induction false} ExpectedAppend(files: seq<FileRecord>, a: seq<BrowseEntry>, b: seq<BrowseEntry>, x: string)
    ensures Expected(files, a + b, x) == Expected(files, a, x) + Expected(files, b, x)
  {
    if a == [] {
      assert a + b == b;
    } else {
      assert (a + b)[1..] == a[1..] + b;
      ExpectedAppend(files, a[1..], b, x);
    }
  }

  lemma {:induction false} ExpectedInsert(files: seq<FileRecord>, e: BrowseEntry, entries: seq<BrowseEntry>, x: string)
    ensures Expected(files, Insert(ByName(), e, entries), x) == Share(files, e, x) + Expected(files, entries, x)
  {
    if entries != [] && ByName()(entries[0], e) {
      ExpectedInsert(files, e, entries[1..], x);
      ExpectedAppend(files, [entries[0]], Insert(ByName(), e, entries[1..]), x);
    } else {
      ExpectedAppend(files, [e], entries, x);
    }
  }

  lemma {:induction false} ExpectedSorted(files: seq<FileRecord>, entries: seq<BrowseEntry>, x: string)
    ensures Expected(files, Sorted(ByName(), entries), x) == Expected(files, entries, x)
    decreases |entries|
  {
    if entries == [] {
    } else {
      var front, last := entries[..|entries| - 1], entries[|entries| - 1];
      ExpectedSorted(files, front, x);
      ExpectedInsert(files, last, Sorted(ByName(), front), x);
      assert entries == front + [last];
      ExpectedAppend(files, front, [last], x);
    }
  }

  lemma {:induction false} BelowCount(files: seq<FileRecord>, prefix: string, x: string)
    ensures multiset(Below(files, prefix))[x] == if prefix <= x then multiset(Below(files, ""))[x] else 0
    decreases |files|
  {
    if files == [] {
    } else {
      BelowCount(files[..|files| - 1], prefix, x);
    }
  }

  lemma {:induction false} FilesExpected(all: seq<FileRecord>, files: seq<FileRecord>, prefix: string, x: string)
    ensures Expected(all, FileEntries(files, prefix), x)
         == if IsFileChild(prefix, x) then multiset(Below(files, ""))[x] else 0
    decreases |files|
  {
    if files == [] {
    } else {
      var front, f := files[..|files| - 1], files[|files| - 1];
      FilesExpected(all, front, prefix, x);
      if IsFileChild(prefix, f.path) {
        ExpectedAppend(all, FileEntries(front, prefix), [FileEntry(prefix, f)], x);
      } else {
        assert FileEntries(files, prefix) == FileEntries(front, prefix);
      }
    }
  }

  /** Of distinct directories, only the one that x descends into can deliver x. */
  lemma {:induction false} DirsExpected(files: seq<FileRecord>, prefix: string, dirs: map<string, nat>, names: seq<string>, x: string)
    requires forall i :: 0 <= i < |names| ==> '/' !in names[i] && Normalise(prefix + names[i]) == prefix + names[i]
    requires forall i, j :: 0 <= i < j < |names| ==> names[i] != names[j]
    ensures Expected(files, DirEntries(prefix, dirs, names), x)
         == if DirName(prefix, x).Some? && DirName(prefix, x).value in names then multiset(Below(files, ""))[x] else 0
  {
    if names == [] {
    } else {
      var entries := DirEntries(prefix, dirs, names);
      assert entries[1..] == DirEntries(prefix, dirs, names[1..]);
      DirsExpected(files, prefix, dirs, names[1..], x);
      NameIff(prefix, names[0], x);
      BelowCount(files, prefix + names[0] + "/", x);
      assert names == [names[0]] + names[1..];
    }
  }

  /** A recorded path below a directory is either one of its files or in exactly one listed subdirectory. */
  lemma OneWay(files: seq<FileRecord>, dir: string, x: string)
    requires AllClean(files) && IsDir(dir)
    ensures var prefix := Prefix(dir);
            x in multiset(Below(files, "")) ==>
              && (prefix <= x <==> IsFileChild(prefix, x) || (DirName(prefix, x).Some? && DirName(prefix, x).value in Dirs(files, prefix)))
              && !(IsFileChild(prefix, x) && DirName(prefix, x).Some?)
  {
    var prefix := Prefix(dir);
    if x in multiset(Below(files, "")) && prefix <= x {
      var i :| 0 <= i < |Below(files, "")| && Below(files, "")[i] == x;
      BelowIsListed(files, "", i);
      CleanStep(dir, x);
      if DirName(prefix, x).Some? {
        var name := DirName(prefix, x).value;
        DirsCount(files, prefix, name);
        BelowCount(files, prefix + name + "/", x);
        assert x in multiset(Below(files, prefix + name + "/"));
      }
    }
  }

  lemma ListingExpected(files: seq<FileRecord>, dir: string, x: string)
    requires AllClean(files) && IsDir(dir)
    ensures Expected(files, Listing(files, dir), x) == multiset(Below(files, Prefix(dir)))[x]
  {
    NormaliseClean(dir);
    var prefix := Prefix(dir);
    var dirs := Dirs(files, prefix);
    var names := SortedKeys(dirs.Keys);
    SortedKeysAre(dirs.Keys);
    forall i | 0 <= i < |names|
      ensures '/' !in names[i] && Normalise(prefix + names[i]) == prefix + names[i]
    {
      assert names[i] in names;
      NamedDirectory(files, dir, names[i]);
      DirsCount(files, prefix, names[i]);
    }
    ExpectedAppend(files, DirListing(files, prefix), Sorted(ByName(), FileEntries(files, prefix)), x);
    ExpectedSorted(files, FileEntries(files, prefix), x);
    FilesExpected(files, files, prefix, x);
    DirsExpected(files, prefix, dirs, names, x);
    BelowCount(files, prefix, x);
    OneWay(files, dir, x);
  }

  lemma {:induction false} WalkCounts(files: seq<FileRecord>, dir: string, x: string)
    requires AllClean(files) && IsDir(dir)
    ensures multiset(Walk(files, dir))[x] == multiset(Below(files, Prefix(dir)))[x]
    decreases Longest(files) - |dir|, 1, 0
  {
    ListingDescends(files, dir);
    WalkEntriesCounts(files, Listing(files, dir), |dir|, x);
    ListingExpected(files, dir, x);
  }

  lemma {:induction false} WalkEntriesCounts(files: seq<FileRecord>, entries: seq<BrowseEntry>, above: nat, x: string)
    requires AllClean(files) && Descends(files, entries, above)
    ensures multiset(WalkEntries(files, entries, above))[x] == Expected(files, entries, x)
    decreases Longest(files) - above, 0, |entries|
  {
    if entries == [] {
    } else {
      WalkEntriesCounts(files, entries[1..], above, x);
      if entries[0].kind.Directory? {
        WalkCounts(files, entries[0].fullPath, x);
      }
    }
  }

  lemma {:induction false} BelowRoot(files: seq<FileRecord>)
    requires AllClean(files)
    ensures Below(files, "/") == Map((f: FileRecord) => f.path, files)
    decreases |files|
  {
    if files == [] {
    } else {
      var front, f := files[..|files| - 1], files[|files| - 1];
      BelowRoot(front);
      assert Clean(f.path) && "/" <= f.path;
      assert files == front + [f];
      MapAppend((f: FileRecord) => f.path, front, [f]);
    }
  }

  lemma WalkIsBelow(files: seq<FileRecord>, dir: string)
    requires AllClean(files) && IsDir(dir)
    ensures multiset(Walk(files, dir)) == multiset(Below(files, Prefix(dir)))
    ensures |Walk(files, dir)| == |Below(files, Prefix(dir))|
  {
    forall x
      ensures multiset(Walk(files, dir))[x] == multiset(Below(files, Prefix(dir)))[x]
    {
      WalkCounts(files, dir, x);
    }
    assert multiset(Walk(files, dir)) == multiset(Below(files, Prefix(dir)));
    assert |multiset(Walk(files, dir))| == |Walk(files, dir)|;
  }

  /** Descending from the root ends, and meets every recorded file exactly as often as it
      is recorded: once when the paths are distinct. */
  lemma WalkMeetsEveryFile(files: seq<FileRecord>)
    requires AllClean(files)
    ensures multiset(Walk(files, "/")) == multiset(Map((f: FileRecord) => f.path, files))
  {
    WalkIsBelow(files, "/");
    BelowRoot(files);
  }

  /** A directory's child count is the number of files met below it. */
  lemma ChildCountIsWalk(files: seq<FileRecord>, dir: string, i: nat)
    requires AllClean(files) && IsDir(dir)
    requires i < |Listing(files, dir)| && Listing(files, dir)[i].kind.Directory?
    ensures IsDir(Listing(files, dir)[i].fullPath)
    ensures Listing(files, dir)[i].childCount == |Walk(files, Listing(files, dir)[i].fullPath)|
  {
    var name := ListedDirectory(files, dir, Listing(files, dir)[i]);
    NamedDirectory(files, dir, name);
    DirsCount(files, Prefix(dir), name);
    WalkIsBelow(files, Listing(files, dir)[i].fullPath);
  }

  /** Directories come first, k of them, each once and by name; then the files by name. */
  ghost predicate InOrder(entries: seq<BrowseEntry>, k: nat) {
    && k <= |entries|
    && (forall i :: 0 <= i < |entries| ==> (entries[i].kind.Directory? <==> i < k))
    && (forall i, j :: 0 <= i < j < k ==> entries[i].name != entries[j].name && StringLeq(entries[i].name, entries[j].name))
    && (forall i, j :: k <= i < j < |entries| ==> StringLeq(entries[i].name, entries[j].name))
  }

  lemma NamesInOrder(prefix: string, dirs: map<string, nat>, names: seq<string>)
    requires forall i, j :: 0 <= i < j < |names| ==> names[i] != names[j] && StringLeq(names[i], names[j])
    ensures InOrder(DirEntries(prefix, dirs, names), |names|)
  {
    var entries := DirEntries(prefix, dirs, names);
    forall i | 0 <= i < |entries|
      ensures entries[i].name == names[i] && entries[i].kind.Directory?
    {
    }
  }

  lemma DirsInOrder(prefix: string, dirs: map<string, nat>)
    ensures InOrder(DirEntries(prefix, dirs, SortedKeys(dirs.Keys)), |dirs|)
  {
    SortedKeysAre(dirs.Keys);
    SortedKeysCount(dirs.Keys);
    NamesInOrder(prefix, dirs, SortedKeys(dirs.Keys));
  }

  lemma FilesAfterDirs(dirEntries: seq<BrowseEntry>, fileEntries: seq<BrowseEntry>)
    requires InOrder(dirEntries, |dirEntries|) && InOrder(fileEntries, 0)
    ensures InOrder(dirEntries + fileEntries, |dirEntries|)
  {
  }

  lemma FilesInOrder(files: seq<FileRecord>, prefix: string)
    ensures InOrder(Sorted(ByName(), FileEntries(files, prefix)), 0)
  {
    NameOrder();
    SortedFiles(files, prefix);
    SortedIsSorted(ByName(), FileEntries(files, prefix));
    var entries := Sorted(ByName(), FileEntries(files, prefix));
    forall i, j | 0 <= i < j < |entries|
      ensures StringLeq(entries[i].name, entries[j].name)
    {
      assert ByName()(entries[i], entries[j]);
    }
  }

  lemma ListingOrder(files: seq<FileRecord>, browsePath: string)
    ensures InOrder(Listing(files, browsePath), |Dirs(files, Prefix(Normalise(browsePath)))|)
  {
    var prefix := Prefix(Normalise(browsePath));
    DirsInOrder(prefix, Dirs(files, prefix));
    FilesInOrder(files, prefix);
    FilesAfterDirs(DirListing(files, prefix), Sorted(ByName(), FileEntries(files, prefix)));
  }

  // ----- what is listed -----

  /** Exactly the names below which some file is recorded are listed as directories, with the number of these files. */
  lemma DirectoriesListed(files: seq<FileRecord>, browsePath: string, name: string, count: nat)
    ensures var prefix := Prefix(Normalise(browsePath));
            BrowseEntry(name, Directory, 0, 0, count, Normalise(prefix + name)) in Listing(files, browsePath) <==>
              '/' !in name && count == |Below(files, prefix + name + "/")| && count > 0
  {
    var prefix := Prefix(Normalise(browsePath));
    var dirs := Dirs(files, prefix);
    var names := SortedKeys(dirs.Keys);
    ListedIn(files, browsePath, DirEntry(prefix, name, count));
    DirsCount(files, prefix, name);
    SortedKeysAre(dirs.Keys);
    if name in dirs {
      var i :| 0 <= i < |names| && names[i] == name;
      assert DirListing(files, prefix)[i] == DirEntry(prefix, name, dirs[name]);
    }
    if DirEntry(prefix, name, count) in DirListing(files, prefix) {
      var i :| 0 <= i < |names| && DirListing(files, prefix)[i] == DirEntry(prefix, name, count);
      assert names[i] in names;
    }
  }

  predicate IsEntryOf(prefix: string, f: FileRecord, e: BrowseEntry) {
    && f.path == prefix + e.name && e.name != "" && '/' !in e.name
    && e == BrowseEntry(e.name, File, f.size, |f.hashes|, 0, f.path)
  }

  lemma EntryOfOne(prefix: string, f: FileRecord, e: BrowseEntry)
    ensures IsFileChild(prefix, f.path) && e == FileEntry(prefix, f) <==> IsEntryOf(prefix, f, e)
  {
    if prefix <= f.path {
      var relative := f.path[|prefix|..];
      assert f.path == prefix + relative;
      assert relative == [] <==> f.path == prefix;
      assert Find(relative) == -1 <==> '/' !in relative;
      assert IsEntryOf(prefix, f, e) ==> e.name == relative;
    }
  }

  lemma {:induction false} FileEntriesIn(files: seq<FileRecord>, prefix: string, e: BrowseEntry)
    ensures e in FileEntries(files, prefix) <==> exists k :: 0 <= k < |files| && IsEntryOf(prefix, files[k], e)
    decreases |files|
  {
    if files == [] {
    } else {
      var front, f := files[..|files| - 1], files[|files| - 1];
      FileEntriesIn(front, prefix, e);
      EntryOfOne(prefix, f, e);
      assert (exists k :: 0 <= k < |files| && IsEntryOf(prefix, files[k], e))
        <==> IsEntryOf(prefix, f, e) || exists k :: 0 <= k < |front| && IsEntryOf(prefix, front[k], e) by {
        if k :| 0 <= k < |front| && IsEntryOf(prefix, front[k], e) {
          assert files[k] == front[k];
        }
        if k :| 0 <= k < |files| && IsEntryOf(prefix, files[k], e) {
          assert k < |front| ==> files[k] == front[k];
        }
      }
    }
  }

  /** Exactly the recorded files directly in the directory are listed as files, with their size and chunk count. */
  lemma FilesListed(files: seq<FileRecord>, browsePath: string, e: BrowseEntry)
    requires e.kind.File?
    ensures e in Listing(files, browsePath) <==>
              exists k :: 0 <= k < |files| && IsEntryOf(Prefix(Normalise(browsePath)), files[k], e)
  {
    ListedIn(files, browsePath, e);
    FileEntriesIn(files, Prefix(Normalise(browsePath)), e);
  }

  // ----- where the hypotheses are needed -----

  lemma {:induction false} NothingAbsolute(files: seq<FileRecord>, prefix: string)
    requires "/" <= prefix && forall i :: 0 <= i < |files| ==> !("/" <= files[i].path)
    ensures Dirs(files, prefix) == map[] && FileEntries(files, prefix) == []
    decreases |files|
  {
    if files == [] {
    } else {
      NothingAbsolute(files[..|files| - 1], prefix);
      assert !("/" <= files[|files| - 1].path);
    }
  }

  /** Paths recorded relative to the source root, as the backup worker records them, are never listed. */
  lemma RelativePathsInvisible(files: seq<FileRecord>, browsePath: string)
    requires forall i :: 0 <= i < |files| ==> !("/" <= files[i].path)
    ensures Listing(files, browsePath) == []
  {
    NothingAbsolute(files, Prefix(Normalise(browsePath)));
  }

  lemma NormalisePrefix(dir: string)
    requires IsDir(dir)
    ensures Normalise(Prefix(dir)) == dir
  {
    NormaliseClean(dir);
    if dir != "/" {
      var relative := dir[1..];
      assert Prefix(dir)[1..] == relative + "/";
      assert TrimLeft(Prefix(dir)) == TrimLeft(relative + "/") == relative + "/";
      assert (relative + "/")[..|relative|] == relative;
      assert TrimRight(relative + "/") == TrimRight(relative) == relative;
    }
  }

  lemma NamedPath(dir: string, name: string)
    requires IsDir(dir) && '/' !in name
    ensures Normalise(Prefix(dir) + name) == dir <==> name == ""
  {
    if name == "" {
      NormalisePrefix(dir);
      assert Prefix(dir) + name == Prefix(dir);
    } else {
      NormaliseClean(Prefix(dir) + name);
    }
  }

  /** A directory lists itself as a subdirectory exactly when some recorded path has an
      empty component right below it: then descending never ends. */
  lemma EmptyComponentLoops(files: seq<FileRecord>, dir: string)
    requires IsDir(dir)
    ensures (exists i :: 0 <= i < |Listing(files, dir)| && Listing(files, dir)[i].kind.Directory? && Listing(files, dir)[i].fullPath == dir)
       <==> Below(files, Prefix(dir) + "/") != []
  {
    var prefix := Prefix(dir);
    DirsCount(files, prefix, "");
    assert prefix + "" + "/" == prefix + "/";
    forall i | 0 <= i < |Listing(files, dir)| && Listing(files, dir)[i].kind.Directory? && Listing(files, dir)[i].fullPath == dir
      ensures "" in Dirs(files, prefix)
    {
      var name := ListedDirectory(files, dir, Listing(files, dir)[i]);
      DirsCount(files, prefix, name);
      NamedPath(dir, name);
    }
    if "" in Dirs(files, prefix) {
      NormaliseClean(dir);
      NamedPath(dir, "");
      var names := SortedKeys(Dirs(files, prefix).Keys);
      SortedKeysAre(Dirs(files, prefix).Keys);
      var i :| 0 <= i < |names| && names[i] == "";
      assert Listing(files, dir)[i] == DirEntry(prefix, "", Dirs(files, prefix)[""]);
    }
  }
}
