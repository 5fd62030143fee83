/**
 * Hook discovery: a package declares named groups of directories, and every
 * regular file at any depth below a group directory whose name is a git hook
 * type becomes one of that group's hook files.
 */
module Discovery {
  import opened Wrappers
  import opened Whitelist

  /** A filesystem path, as its sequence of components. */
  type Path = seq<string>

  /** An entry of a directory listing: a regular file or a sub-directory with its own listing. */
  datatype Node = File(name: string) | Dir(name: string, children: seq<Node>)

  /** A discovered hook file: the directory that holds it (its dirname) and its base name. */
  datatype HookFile = HookFile(dir: Path, name: string)

  /** One entry of a package's available-hooks declaration: a group name and its directory, relative to the install path. */
  datatype Group = Group(name: string, dir: Path)

  /**
   * What the installer reads of a package: its name, its install path, the
   * available-hooks declaration (None when the field is absent or not an array)
   * and the listing of its install directory.
   */
  datatype Package = Package(name: string, installPath: Path, availableHooks: Option<seq<Group>>, contents: seq<Node>)

  /** The ways an install transition aborts. */
  datatype Error =
    | DirectoryNotFound(path: Path)
    | MissingHook(packageName: string, hookName: string)

  /** Discovered hook files by group name. */
  type AvailableHooks = map<string, seq<HookFile>>

  /** A package has installable hooks when it declares a non-empty available-hooks array. */
  predicate HasInstallableGitHooks(pkg: Package)
  {
    pkg.availableHooks.Some? && |pkg.availableHooks.value| > 0
  }

  /** The hook files below the listing `entries` of the directory `path`, in listing order. */
  function HookFiles(path: Path, entries: seq<Node>): seq<HookFile>
    decreases entries
  {
    if entries == [] then []
    else HookFiles(path, entries[..|entries| - 1]) + EntryHookFiles(path, entries[|entries| - 1])
  }

  /** The hook files contributed by one entry of the directory `path`. */
  function EntryHookFiles(path: Path, e: Node): seq<HookFile>
    decreases e
  {
    match e
    case File(n) => if IsValidHookType(n) then [HookFile(path, n)] else []
    case Dir(n, cs) => HookFiles(path + [n], cs)
  }

  /** The listing `entries` holds a regular file at the relative path `sub`. */
  ghost predicate FileAt(entries: seq<Node>, sub: Path)
    decreases entries
  {
    exists k :: 0 <= k < |entries| && EntryHasFile(entries[k], sub)
  }

  /** The entry `e` is, or contains, a regular file at the relative path `sub` (which starts with `e`'s own name). */
  ghost predicate EntryHasFile(e: Node, sub: Path)
    decreases e
  {
    match e
    case File(n) => sub == [n]
    case Dir(n, cs) => |sub| > 1 && sub[0] == n && FileAt(cs, sub[1..])
  }

  /** `f` lies below `path`, and `Below(path, f)` is its path relative to `path`. */
  predicate Under(path: Path, f: HookFile)
  {
    |path| <= |f.dir| && f.dir[..|path|] == path
  }

  function Below(path: Path, f: HookFile): Path
    requires Under(path, f)
  {
    f.dir[|path|..] + [f.name]
  }

  /** Directory entries carry distinct names. */
  predicate UniqueNames(entries: seq<Node>)
  {
    forall i, j :: 0 <= i < j < |entries| ==> entries[i].name != entries[j].name
  }

  /** The listing of the sub-directory `name`, if the first entry so named is a directory. */
  function FindDir(entries: seq<Node>, name: string): (r: Option<seq<Node>>)
    ensures r.Some? ==> Dir(name, r.value) in entries
    ensures forall cs :: UniqueNames(entries) && Dir(name, cs) in entries ==> r == Some(cs)
  {
    if entries == [] then None
    else if entries[0].name == name then
      (if entries[0].Dir? then Some(entries[0].children) else None)
    else
      var r := FindDir(entries[1..], name);
      assert forall cs :: Dir(name, cs) in entries ==> Dir(name, cs) in entries[1..];
      r
  }

  /** The listing of the directory at the relative path `rel`, or None when it does not exist. */
  function Lookup(entries: seq<Node>, rel: Path): Option<seq<Node>>
    decreases rel
  {
    if rel == [] then Some(entries)
    else
      match FindDir(entries, rel[0])
      case None => None
      case Some(cs) => Lookup(cs, rel[1..])
  }

  /**
   * The hook files of each declared group, in declaration order; a later group
   * of the same name replaces an earlier one. Fails on the first group whose
   * directory does not exist.
   */
  function DiscoverGroups(pkg: Package, groups: seq<Group>): Result<AvailableHooks, Error>
    decreases |groups|
  {
    if groups == [] then Success(map[])
    else
      var g := groups[|groups| - 1];
      match DiscoverGroups(pkg, groups[..|groups| - 1])
      case Failure(e) => Failure(e)
      case Success(m) =>
        match Lookup(pkg.contents, g.dir)
        case None => Failure(DirectoryNotFound(pkg.installPath + g.dir))
        case Some(cs) => Success(m[g.name := HookFiles(pkg.installPath + g.dir, cs)])
  }

  /** The available hooks of a package: empty when it declares none. */
  function Discover(pkg: Package): Result<AvailableHooks, Error>
  {
    if !HasInstallableGitHooks(pkg) then Success(map[])
    else DiscoverGroups(pkg, pkg.availableHooks.value)
  }

  /**
   * Discovery returns exactly the regular files below `path` whose name is a
   * hook type.
   */
  lemma {:induction false} HookFilesExact(path: Path, entries: seq<Node>, f: HookFile)
    ensures f in HookFiles(path, entries) <==>
      IsValidHookType(f.name) && Under(path, f) && FileAt(entries, Below(path, f))
    decreases entries
  {
    if entries == [] {
    } else {
      var init, last := entries[..|entries| - 1], entries[|entries| - 1];
      HookFilesExact(path, init, f);
      EntryHookFilesExact(path, last, f);
      if IsValidHookType(f.name) && Under(path, f) {
        var sub := Below(path, f);
        if FileAt(entries, sub) {
          var k :| 0 <= k < |entries| && EntryHasFile(entries[k], sub);
          if k < |entries| - 1 {
            assert init[k] == entries[k];
          }
        }
        if FileAt(init, sub) {
          var k :| 0 <= k < |init| && EntryHasFile(init[k], sub);
          assert entries[k] == init[k];
        }
        if EntryHasFile(last, sub) {
          assert entries[|entries| - 1] == last;
        }
      }
    }
  }

  lemma {:induction false} EntryHookFilesExact(path: Path, e: Node, f: HookFile)
    ensures f in EntryHookFiles(path, e) <==>
      IsValidHookType(f.name) && Under(path, f) && EntryHasFile(e, Below(path, f))
    decreases e
  {
    match e
    case File(n) =>
      if Under(path, f) && EntryHasFile(e, Below(path, f)) {
        var sub := Below(path, f);
        assert sub[|sub| - 1] == f.name == n;
        assert |f.dir[|path|..]| == 0;
        assert f.dir == f.dir[..|path|] == path;
        assert f == HookFile(path, n);
      }
    case Dir(n, cs) =>
      var p := path + [n];
      HookFilesExact(p, cs, f);
      if Under(p, f) {
        assert f.dir[..|path|] == p[..|path|] == path;
        var sub := Below(path, f);
        assert sub[0] == n by { assert f.dir[|path|] == p[|path|]; }
        assert sub[1..] == Below(p, f);
      }
      if Under(path, f) && EntryHasFile(e, Below(path, f)) {
        var sub := Below(path, f);
        assert |f.dir| > |path|;
        assert f.dir[..|p|] == p by {
          assert f.dir[..|p|] == f.dir[..|path|] + [f.dir[|path|]];
        }
        assert sub[1..] == Below(p, f);
      }
  }

  /** Every discovered file is named after a whitelisted hook type. */
  lemma HookFilesWhitelisted(path: Path, entries: seq<Node>)
    ensures forall f :: f in HookFiles(path, entries) ==> IsValidHookType(f.name)
  {
    forall f | f in HookFiles(path, entries) ensures IsValidHookType(f.name) {
      HookFilesExact(path, entries, f);
    }
  }

  /** Every directory of the tree, at any depth, lists entries of distinct names, as a real file system does. */
  predicate TreeNamesUnique(entries: seq<Node>)
    decreases entries
  {
    && UniqueNames(entries)
    && forall k :: 0 <= k < |entries| ==> EntryNamesUnique(entries[k])
  }

  predicate EntryNamesUnique(e: Node)
    decreases e
  {
    e.Dir? ==> TreeNamesUnique(e.children)
  }

  /** No file occurs twice in the list. */
  predicate NoDuplicates(files: seq<HookFile>)
  {
    forall i, j :: 0 <= i < j < |files| ==> files[i] != files[j]
  }

  lemma NoDuplicatesConcat(a: seq<HookFile>, b: seq<HookFile>)
    requires NoDuplicates(a) && NoDuplicates(b)
    requires forall f :: f in a ==> f !in b
    ensures NoDuplicates(a + b)
  {
    forall i, j | 0 <= i < j < |a + b| ensures (a + b)[i] != (a + b)[j] {
      if i < |a| && j >= |a| {
        assert (a + b)[i] in a && (a + b)[j] == b[j - |a|];
      }
    }
  }

  /** A file found below an entry lies, relative to the walked directory, under that entry's name. */
  lemma EntryHookFileHead(path: Path, e: Node, f: HookFile)
    requires f in EntryHookFiles(path, e)
    ensures Under(path, f) && Below(path, f)[0] == e.name
  {
    EntryHookFilesExact(path, e, f);
  }

  /**
   * When every directory lists distinct names, the walk lists every hook file
   * exactly once.
   */
  lemma {:induction false} HookFilesNoDuplicates(path: Path, entries: seq<Node>)
    requires TreeNamesUnique(entries)
    ensures NoDuplicates(HookFiles(path, entries))
    decreases entries
  {
    if entries != [] {
      var init, last := entries[..|entries| - 1], entries[|entries| - 1];
      assert forall k :: 0 <= k < |init| ==> init[k] == entries[k];
      assert TreeNamesUnique(init);
      assert EntryNamesUnique(last);
      HookFilesNoDuplicates(path, init);
      EntryHookFilesNoDuplicates(path, last);
      forall f | f in HookFiles(path, init) ensures f !in EntryHookFiles(path, last) {
        HookFilesExact(path, init, f);
        var k :| 0 <= k < |init| && EntryHasFile(init[k], Below(path, f));
        assert Below(path, f)[0] == init[k].name != last.name by {
          assert entries[k] == init[k];
        }
        if f in EntryHookFiles(path, last) {
          EntryHookFileHead(path, last, f);
        }
      }
      NoDuplicatesConcat(HookFiles(path, init), EntryHookFiles(path, last));
    }
  }

  lemma {:induction false} EntryHookFilesNoDuplicates(path: Path, e: Node)
    requires EntryNamesUnique(e)
    ensures NoDuplicates(EntryHookFiles(path, e))
    decreases e
  {
    match e
    case File(n) =>
    case Dir(n, cs) =>
      HookFilesNoDuplicates(path + [n], cs);
  }

  /**
   * Discovery over a list of groups fails exactly when some group directory is
   * missing; on success it has one key per group name and only whitelisted
   * files.
   */
  lemma {:induction false} DiscoverGroupsSpec(pkg: Package, groups: seq<Group>)
    ensures DiscoverGroups(pkg, groups).Success? <==>
      forall k :: 0 <= k < |groups| ==> Lookup(pkg.contents, groups[k].dir).Some?
    ensures DiscoverGroups(pkg, groups).Success? ==>
      var m := DiscoverGroups(pkg, groups).value;
      && m.Keys == (set g | g in groups :: g.name)
      && (forall name, f :: name in m && f in m[name] ==> IsValidHookType(f.name))
    ensures DiscoverGroups(pkg, groups).Failure? ==>
      exists k :: FirstMissingDir(pkg, groups, k) &&
        DiscoverGroups(pkg, groups).error == DirectoryNotFound(pkg.installPath + groups[k].dir)
    decreases |groups|
  {
    if groups != [] {
      var init, g := groups[..|groups| - 1], groups[|groups| - 1];
      DiscoverGroupsSpec(pkg, init);
      assert forall k :: 0 <= k < |init| ==> init[k] == groups[k];
      assert groups == init + [g];
      if DiscoverGroups(pkg, init).Failure? {
        var k :| FirstMissingDir(pkg, init, k) &&
          DiscoverGroups(pkg, init).error == DirectoryNotFound(pkg.installPath + init[k].dir);
        assert FirstMissingDir(pkg, groups, k);
      } else {
        match Lookup(pkg.contents, g.dir)
        case None =>
          assert FirstMissingDir(pkg, groups, |groups| - 1);
        case Some(cs) =>
          HookFilesWhitelisted(pkg.installPath + g.dir, cs);
      }
    }
  }

  /** `groups[k]` is the first declared group whose directory does not exist. */
  predicate FirstMissingDir(pkg: Package, groups: seq<Group>, k: int)
  {
    && 0 <= k < |groups|
    && Lookup(pkg.contents, groups[k].dir).None?
    && forall j :: 0 <= j < k ==> Lookup(pkg.contents, groups[j].dir).Some?
  }

  /**
   * When group names are distinct, each group's key maps to exactly the hook
   * files below its own directory.
   */
  lemma {:induction false} DiscoverGroupsFiles(pkg: Package, groups: seq<Group>, k: nat)
    requires k < |groups|
    requires forall i, j :: 0 <= i < j < |groups| ==> groups[i].name != groups[j].name
    requires DiscoverGroups(pkg, groups).Success?
    ensures Lookup(pkg.contents, groups[k].dir).Some?
    ensures groups[k].name in DiscoverGroups(pkg, groups).value
    ensures DiscoverGroups(pkg, groups).value[groups[k].name] ==
      HookFiles(pkg.installPath + groups[k].dir, Lookup(pkg.contents, groups[k].dir).value)
    decreases |groups|
  {
    var init := groups[..|groups| - 1];
    if k < |groups| - 1 {
      DiscoverGroupsFiles(pkg, init, k);
    }
  }

  /** The walk of one directory listing, recursing into sub-directories. */
  method ListHookFilesRecursively(path: Path, entries: seq<Node>) returns (r: seq<HookFile>)
    ensures r == HookFiles(path, entries)
    decreases entries
  {
    r := [];
    var i := 0;
    while i < |entries|
      invariant 0 <= i <= |entries|
      invariant r == HookFiles(path, entries[..i])
    {
      var e := entries[i];
      assert entries[..i + 1][..i] == entries[..i];
      match e {
        case Dir(n, cs) =>
          var sub := ListHookFilesRecursively(path + [n], cs);
          r := r + sub;
        case File(n) =>
          if n in GitHookWhitelist() {
            r := r + [HookFile(path, n)];
          }
      }
      i := i + 1;
    }
    assert entries[..i] == entries;
  }

  /** Walks every declared group directory of a package, in declaration order. */
  method FindPackageGitHooks(pkg: Package) returns (r: Result<AvailableHooks, Error>)
    ensures r == Discover(pkg)
  {
    if !HasInstallableGitHooks(pkg) {
      return Success(map[]);
    }
    var groups := pkg.availableHooks.value;
    var found: AvailableHooks := map[];
    var i := 0;
    while i < |groups|
      invariant 0 <= i <= |groups|
      invariant DiscoverGroups(pkg, groups[..i]) == Success(found)
    {
      var g := groups[i];
      assert groups[..i + 1][..i] == groups[..i];
      var listing := Lookup(pkg.contents, g.dir);
      if listing.None? {
        assert groups[..i + 1] == groups[..i] + [g];
        FailureStops(pkg, groups, i + 1);
        return Failure(DirectoryNotFound(pkg.installPath + g.dir));
      }
      var files := ListHookFilesRecursively(pkg.installPath + g.dir, listing.value);
      found := found[g.name := files];
      i := i + 1;
    }
    assert groups[..i] == groups;
    r := Success(found);
  }

  /** Once a prefix of the groups fails, the whole list fails with the same error. */
  lemma {:induction false} FailureStops(pkg: Package, groups: seq<Group>, n: nat)
    requires n <= |groups|
    requires DiscoverGroups(pkg, groups[..n]).Failure?
    ensures DiscoverGroups(pkg, groups) == DiscoverGroups(pkg, groups[..n])
    decreases |groups| - n
  {
    if n < |groups| {
      assert groups[..n + 1][..n] == groups[..n];
      FailureStops(pkg, groups, n + 1);
    } else {
      assert groups[..n] == groups;
    }
  }
}
