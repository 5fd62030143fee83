/**
 * The installer's transitions on the disk state it manages: the persisted
 * collection document and the dispatcher files in the git hooks directory.
 */
module Engine {
  import opened Wrappers
  import opened Whitelist
  import opened Discovery
  import opened Collection

  /**
   * What the installer sees of the disk: whether the project is a git working
   * copy (so the hooks directory can be ensured), the collection document if it
   * exists, and the hook types that have a dispatcher file.
   */
  datatype Disk = Disk(gitDirPresent: bool, collectionDoc: Option<HookCollection>, dispatchers: set<string>)

  /** The installer's surroundings: path resolution and the root package's required hooks (package name -> hook names). */
  datatype Config = Config(resolver: Resolver, requiredHooks: map<string, seq<string>>)

  /** The disk after a transition and whether the transition succeeded. */
  datatype Transition = Transition(disk: Disk, outcome: Outcome<Error>)

  /** The collection the document holds; no document reads as the empty collection. */
  function Loaded(d: Disk): HookCollection
  {
    d.collectionDoc.GetOr(map[])
  }

  /** The document is written when the collection is non-empty and deleted otherwise. */
  function AfterSaveCollection(d: Disk, c: HookCollection): (r: Disk)
    ensures r.gitDirPresent == d.gitDirPresent && r.dispatchers == d.dispatchers
    ensures !d.gitDirPresent ==> r == d
    ensures d.gitDirPresent ==> (r.collectionDoc.Some? <==> c != map[]) && Loaded(r) == c
  {
    if !d.gitDirPresent then d
    else d.(collectionDoc := if |c| > 0 then Some(c) else None)
  }

  /** Saves the collection, then (re)writes a dispatcher for every hook type it holds. */
  function AfterSaveGitHooks(d: Disk, c: HookCollection): (r: Disk)
    ensures !d.gitDirPresent ==> r == d
    ensures d.gitDirPresent ==> Loaded(r) == c && r.dispatchers == d.dispatchers + c.Keys
  {
    if !d.gitDirPresent then d
    else AfterSaveCollection(d, c).(dispatchers := d.dispatchers + c.Keys)
  }

  /** Install does something only for a package with installable hooks, inside a git working copy, that the root package requires hooks from. */
  predicate Active(d: Disk, cfg: Config, pkg: Package)
  {
    HasInstallableGitHooks(pkg) && d.gitDirPresent && pkg.name in cfg.requiredHooks
  }

  /**
   * Install: discover the package's hooks, merge every required hook into the
   * loaded collection and save it with its dispatchers; a failure persists nothing.
   */
  function AfterInstall(d: Disk, cfg: Config, pkg: Package): (r: Transition)
    ensures r.outcome.Fail? ==> r.disk == d
    ensures !Active(d, cfg, pkg) ==> r == Transition(d, Pass)
    ensures r.disk.gitDirPresent == d.gitDirPresent
  {
    if !Active(d, cfg, pkg) then Transition(d, Pass)
    else
      match Discover(pkg)
      case Failure(e) => Transition(d, Fail(e))
      case Success(available) =>
        match Aggregate(Loaded(d), pkg.name, cfg.requiredHooks[pkg.name], available, cfg.resolver)
        case Failure(e) => Transition(d, Fail(e))
        case Success(c) => Transition(AfterSaveGitHooks(d, c), Pass)
  }

  /**
   * Uninstall: remove the package from every hook type, delete the dispatcher
   * of every hook type left empty, and save the collection without those types.
   */
  function AfterUninstall(d: Disk, pkgName: string): (r: Disk)
    ensures r.gitDirPresent == d.gitDirPresent
    ensures !d.gitDirPresent ==> r == d
  {
    if !d.gitDirPresent then d
    else
      var c := Loaded(d);
      AfterSaveCollection(d.(dispatchers := d.dispatchers - Emptied(c, pkgName)), Uninstalled(c, pkgName))
  }

  /** Update: uninstall the initial package, then install the target one. */
  function AfterUpdate(d: Disk, cfg: Config, initial: Package, target: Package): (r: Transition)
    ensures r.disk.gitDirPresent == d.gitDirPresent
    ensures !d.gitDirPresent ==> r == Transition(d, Pass)
  {
    AfterInstall(AfterUninstall(d, initial.name), cfg, target)
  }

  /**
   * The disk invariant: the document, when present, holds a non-empty well-formed
   * collection of whitelisted hook types, and a dispatcher exists for a hook
   * type exactly when it is a key of the persisted collection.
   */
  predicate Consistent(d: Disk)
  {
    && (d.collectionDoc.Some? ==> d.collectionDoc.value != map[] && WellFormed(d.collectionDoc.value))
    && d.dispatchers == Loaded(d).Keys
    && (forall t :: t in Loaded(d) ==> IsValidHookType(t))
  }

  /** The loaded collection of a consistent disk is well formed. */
  lemma LoadedWellFormed(d: Disk)
    requires Consistent(d)
    ensures WellFormed(Loaded(d))
    ensures d.collectionDoc.None? <==> Loaded(d) == map[]
  {
  }

  /** The available hooks of a package hold only whitelisted files. */
  lemma DiscoverWhitelisted(pkg: Package)
    requires Discover(pkg).Success?
    ensures forall g, f :: g in Discover(pkg).value && f in Discover(pkg).value[g] ==> IsValidHookType(f.name)
  {
    if HasInstallableGitHooks(pkg) {
      DiscoverGroupsSpec(pkg, pkg.availableHooks.value);
    }
  }

  /**
   * An active install fails exactly when a group directory is missing or a
   * required hook name is not provided.
   */
  lemma InstallFailure(d: Disk, cfg: Config, pkg: Package)
    requires Active(d, cfg, pkg)
    ensures AfterInstall(d, cfg, pkg).outcome.Fail? <==>
      || Discover(pkg).Failure?
      || exists h :: h in cfg.requiredHooks[pkg.name] && h !in Discover(pkg).value
    ensures Discover(pkg).Success? && AfterInstall(d, cfg, pkg).outcome.Fail? ==>
      exists k :: FirstMissing(cfg.requiredHooks[pkg.name], Discover(pkg).value, k) &&
        AfterInstall(d, cfg, pkg).outcome.error == MissingHook(pkg.name, cfg.requiredHooks[pkg.name][k])
    ensures Discover(pkg).Failure? ==>
      exists k :: FirstMissingDir(pkg, pkg.availableHooks.value, k) &&
        AfterInstall(d, cfg, pkg).outcome.error == DirectoryNotFound(pkg.installPath + pkg.availableHooks.value[k].dir)
  {
    if Discover(pkg).Failure? {
      DiscoverGroupsSpec(pkg, pkg.availableHooks.value);
    } else {
      AggregateFailure(Loaded(d), pkg.name, cfg.requiredHooks[pkg.name], Discover(pkg).value, cfg.resolver);
    }
  }

  /**
   * After a successful install the document exists exactly when the saved
   * collection is non-empty, and every hook type of it has a dispatcher.
   */
  lemma InstallSaved(d: Disk, cfg: Config, pkg: Package)
    requires d.gitDirPresent
    requires AfterInstall(d, cfg, pkg).outcome.Pass?
    requires Consistent(d)
    ensures var d' := AfterInstall(d, cfg, pkg).disk;
      && (d'.collectionDoc.Some? <==> Loaded(d') != map[])
      && Loaded(d').Keys <= d'.dispatchers
  {
  }

  /**
   * A successful install sets every slot (t, pkg, g) of a required hook name g
   * to the relative path of g's last file named t, and leaves every other slot
   * — other packages', other hook names' of this package — as it was.
   */
  lemma InstallSlot(d: Disk, cfg: Config, pkg: Package, t: string, p: string, g: string)
    requires Active(d, cfg, pkg)
    requires AfterInstall(d, cfg, pkg).outcome.Pass?
    ensures Discover(pkg).Success?
    ensures var available := Discover(pkg).value;
      Slot(Loaded(AfterInstall(d, cfg, pkg).disk), t, p, g) ==
        if p == pkg.name && g in cfg.requiredHooks[pkg.name] && g in available && HasType(available[g], t)
        then Some(RelativeHookPath(cfg.resolver, LastOfType(available[g], t)))
        else Slot(Loaded(d), t, p, g)
  {
    AggregateSlot(Loaded(d), pkg.name, cfg.requiredHooks[pkg.name], Discover(pkg).value, cfg.resolver, t, p, g);
  }

  /** A successful active install saves the merge of the package into the loaded collection. */
  lemma InstallUnfold(d: Disk, cfg: Config, pkg: Package)
    requires Active(d, cfg, pkg) && AfterInstall(d, cfg, pkg).outcome.Pass?
    ensures Discover(pkg).Success?
    ensures Aggregate(Loaded(d), pkg.name, cfg.requiredHooks[pkg.name], Discover(pkg).value, cfg.resolver).Success?
    ensures AfterInstall(d, cfg, pkg).disk ==
      AfterSaveGitHooks(d, Aggregate(Loaded(d), pkg.name, cfg.requiredHooks[pkg.name], Discover(pkg).value, cfg.resolver).value)
  {
  }

  /** Merging whitelisted files into a collection of whitelisted hook types keeps every key whitelisted. */
  lemma AggregateWhitelisted(c: HookCollection, pkg: string, required: seq<string>, available: AvailableHooks, res: Resolver)
    requires Aggregate(c, pkg, required, available, res).Success?
    requires forall t :: t in c ==> IsValidHookType(t)
    requires forall g, f :: g in available && f in available[g] ==> IsValidHookType(f.name)
    ensures forall t :: t in Aggregate(c, pkg, required, available, res).value ==> IsValidHookType(t)
  {
    AggregateShape(c, pkg, required, available, res);
    forall t | t in Aggregate(c, pkg, required, available, res).value ensures IsValidHookType(t) {
      if t !in c {
        var g :| g in required && g in available && t in HookTypes(available[g]);
        var f: HookFile :| f in available[g] && f.name == t;
      }
    }
  }

  /** Saving a well-formed collection of whitelisted types that keeps every loaded type keeps the disk invariant. */
  lemma SaveGitHooksConsistent(d: Disk, c: HookCollection)
    requires Consistent(d) && d.gitDirPresent
    requires WellFormed(c) && Loaded(d).Keys <= c.Keys
    requires forall t :: t in c ==> IsValidHookType(t)
    ensures Consistent(AfterSaveGitHooks(d, c))
  {
  }

  /** Install keeps the disk invariant. */
  lemma InstallPreservesConsistent(d: Disk, cfg: Config, pkg: Package)
    requires Consistent(d)
    ensures Consistent(AfterInstall(d, cfg, pkg).disk)
  {
    if Active(d, cfg, pkg) && AfterInstall(d, cfg, pkg).outcome.Pass? {
      InstallUnfold(d, cfg, pkg);
      var available := Discover(pkg).value;
      var required := cfg.requiredHooks[pkg.name];
      LoadedWellFormed(d);
      AggregateShape(Loaded(d), pkg.name, required, available, cfg.resolver);
      DiscoverWhitelisted(pkg);
      AggregateWhitelisted(Loaded(d), pkg.name, required, available, cfg.resolver);
      SaveGitHooksConsistent(d, Aggregate(Loaded(d), pkg.name, required, available, cfg.resolver).value);
    }
  }

  /**
   * Uninstall clears every slot of the package and keeps all other slots; the
   * dispatchers it deletes are exactly those of the hook types it empties.
   */
  lemma UninstallSpec(d: Disk, pkgName: string)
    requires Consistent(d) && d.gitDirPresent
    ensures forall t, p, h ::
      Slot(Loaded(AfterUninstall(d, pkgName)), t, p, h) == (if p == pkgName then None else Slot(Loaded(d), t, p, h))
    ensures AfterUninstall(d, pkgName).dispatchers == d.dispatchers - Emptied(Loaded(d), pkgName)
    ensures AfterUninstall(d, pkgName).collectionDoc.None? <==> Loaded(AfterUninstall(d, pkgName)) == map[]
  {
    UninstalledSpec(Loaded(d), pkgName);
  }

  /** Uninstall keeps the disk invariant. */
  lemma UninstallPreservesConsistent(d: Disk, pkgName: string)
    requires Consistent(d)
    ensures Consistent(AfterUninstall(d, pkgName))
  {
    if d.gitDirPresent {
      UninstalledSpec(Loaded(d), pkgName);
    }
  }

  /** Update keeps the disk invariant. */
  lemma UpdatePreservesConsistent(d: Disk, cfg: Config, initial: Package, target: Package)
    requires Consistent(d)
    ensures Consistent(AfterUpdate(d, cfg, initial, target).disk)
  {
    UninstallPreservesConsistent(d, initial.name);
    InstallPreservesConsistent(AfterUninstall(d, initial.name), cfg, target);
  }

  /**
   * Saving a collection r whose uninstall gives back the loaded collection, and
   * whose emptied types are exactly the new ones, then uninstalling, restores the disk.
   */
  lemma SaveThenUninstall(d: Disk, r: HookCollection, pkgName: string)
    requires Consistent(d) && d.gitDirPresent
    requires Loaded(d).Keys <= r.Keys
    requires Uninstalled(r, pkgName) == Loaded(d)
    requires Emptied(r, pkgName) == r.Keys - Loaded(d).Keys
    ensures AfterUninstall(AfterSaveGitHooks(d, r), pkgName) == d
  {
    var d1 := AfterSaveGitHooks(d, r);
    assert Loaded(d1) == r;
    assert d1.dispatchers - Emptied(r, pkgName) == d.dispatchers;
  }

  /** Uninstalling a package that contributes nothing leaves a consistent disk as it was. */
  lemma UninstallAbsent(d: Disk, pkgName: string)
    requires Consistent(d) && Absent(Loaded(d), pkgName)
    ensures AfterUninstall(d, pkgName) == d
  {
    if d.gitDirPresent {
      var c := Loaded(d);
      LoadedWellFormed(d);
      UninstalledAbsent(c, pkgName);
    }
  }

  /**
   * Installing a package with no prior entries and then uninstalling it gives
   * back the disk it started from: the same document (or none) and the same
   * dispatchers.
   */
  lemma InstallThenUninstall(d: Disk, cfg: Config, pkg: Package)
    requires Consistent(d) && Absent(Loaded(d), pkg.name)
    requires AfterInstall(d, cfg, pkg).outcome.Pass?
    ensures AfterUninstall(AfterInstall(d, cfg, pkg).disk, pkg.name) == d
  {
    if !Active(d, cfg, pkg) {
      UninstallAbsent(d, pkg.name);
    } else {
      var c := Loaded(d);
      LoadedWellFormed(d);
      InstallUnfold(d, cfg, pkg);
      var available := Discover(pkg).value;
      var required := cfg.requiredHooks[pkg.name];
      AggregateThenUninstall(c, pkg.name, required, available, cfg.resolver);
      AggregateThenEmptied(c, pkg.name, required, available, cfg.resolver);
      AggregateShape(c, pkg.name, required, available, cfg.resolver);
      SaveThenUninstall(d, Aggregate(c, pkg.name, required, available, cfg.resolver).value, pkg.name);
    }
  }

  /**
   * Updating a package to one of the same name replaces its entries wholesale:
   * afterwards its slots are exactly the ones the new version's required hooks
   * give, and every other package's are unchanged.
   */
  lemma UpdateReplaces(d: Disk, cfg: Config, initial: Package, target: Package, t: string, p: string, g: string)
    requires Consistent(d) && initial.name == target.name
    requires Active(d, cfg, target)
    requires AfterUpdate(d, cfg, initial, target).outcome.Pass?
    ensures Discover(target).Success?
    ensures var available := Discover(target).value;
      Slot(Loaded(AfterUpdate(d, cfg, initial, target).disk), t, p, g) ==
        if p == target.name then
          (if g in cfg.requiredHooks[target.name] && g in available && HasType(available[g], t)
           then Some(RelativeHookPath(cfg.resolver, LastOfType(available[g], t)))
           else None)
        else Slot(Loaded(d), t, p, g)
  {
    var u := AfterUninstall(d, initial.name);
    UninstallSpec(d, initial.name);
    UninstallPreservesConsistent(d, initial.name);
    InstallSlot(u, cfg, target, t, p, g);
  }

  /** Requiring an empty list of hooks from a package rewrites the collection unchanged. */
  lemma InstallNothingRequired(d: Disk, cfg: Config, pkg: Package)
    requires Consistent(d) && Active(d, cfg, pkg) && cfg.requiredHooks[pkg.name] == []
    requires Discover(pkg).Success?
    ensures AfterInstall(d, cfg, pkg) == Transition(d, Pass)
  {
    LoadedWellFormed(d);
    assert Aggregate(Loaded(d), pkg.name, [], Discover(pkg).value, cfg.resolver) == Success(Loaded(d));
    assert AfterInstall(d, cfg, pkg) == Transition(AfterSaveGitHooks(d, Loaded(d)), Pass);
    assert AfterSaveGitHooks(d, Loaded(d)) == d;
  }

  /**
   * A hook type another package still contributes to keeps its dispatcher and
   * its key when a package is uninstalled.
   */
  lemma UninstallKeepsShared(d: Disk, pkgName: string, t: string, other: string)
    requires Consistent(d) && d.gitDirPresent
    requires t in Loaded(d) && other in Loaded(d)[t] && other != pkgName
    ensures t in AfterUninstall(d, pkgName).dispatchers
    ensures t in Loaded(AfterUninstall(d, pkgName)) && other in Loaded(AfterUninstall(d, pkgName))[t]
  {
    UninstallSpec(d, pkgName);
    LoadedWellFormed(d);
    EmptiedIff(Loaded(d), pkgName, t);
    var h :| h in Loaded(d)[t][other];
    assert Slot(Loaded(d), t, other, h).Some?;
    assert Slot(Loaded(AfterUninstall(d, pkgName)), t, other, h).Some?;
  }

  /** A package whose one group, `groupName`, holds scripts/pre-commit and a non-hook file. */
  function ExamplePackage(groupName: string): Package
  {
    Package("pkgA", ["vendor", "pkgA"], Some([Group(groupName, ["scripts"])]),
      [Dir("scripts", [File("pre-commit"), File("not-a-hook")])])
  }

  /** Discovery of the example package finds scripts/pre-commit under its group and nothing else. */
  lemma ExampleDiscover(groupName: string)
    ensures Discover(ExamplePackage(groupName)) ==
      Success(map[groupName := [HookFile(["vendor", "pkgA", "scripts"], "pre-commit")]])
  {
    var pkg := ExamplePackage(groupName);
    var listing := [File("pre-commit"), File("not-a-hook")];
    var files := [HookFile(["vendor", "pkgA", "scripts"], "pre-commit")];
    assert IsValidHookType("pre-commit");
    assert !IsValidHookType("not-a-hook");
    assert HookFiles(["vendor", "pkgA", "scripts"], listing[..1]) == files;
    assert listing[..1] == listing[..|listing| - 1];
    assert HookFiles(["vendor", "pkgA", "scripts"], listing) == files;
    assert FindDir(pkg.contents, "scripts") == Some(listing);
    assert Lookup(pkg.contents, ["scripts"]) == Some(listing);
    var groups := pkg.availableHooks.value;
    assert groups[..|groups| - 1] == [];
    assert DiscoverGroups(pkg, []) == Success(map[]);
    assert pkg.installPath + groups[0].dir == ["vendor", "pkgA", "scripts"];
    assert DiscoverGroups(pkg, groups) == Success(map[][groupName := files]);
  }

  /**
   * Installing the example package, with group "lint" required as ["lint"], into
   * a fresh working copy writes one entry for pre-commit, ignores the non-hook
   * file and creates exactly the pre-commit dispatcher.
   */
  lemma ExampleInstall(shortestPath: (Path, Path) -> string)
    ensures var cfg := Config(Resolver([".git", "hooks"], shortestPath), map["pkgA" := ["lint"]]);
      AfterInstall(Disk(true, None, {}), cfg, ExamplePackage("lint")) ==
        Transition(Disk(true, Some(map["pre-commit" := map["pkgA" := map["lint" :=
          shortestPath([".git", "hooks"], ["vendor", "pkgA", "scripts"]) + "/pre-commit"]]]), {"pre-commit"}), Pass)
  {
    var res := Resolver([".git", "hooks"], shortestPath);
    var cfg := Config(res, map["pkgA" := ["lint"]]);
    var d := Disk(true, None, {});
    ExampleDiscover("lint");
    ExampleMerge(res);
    assert Active(d, cfg, ExamplePackage("lint")) && Loaded(d) == map[];
    var expected := map["pre-commit" := map["pkgA" := map["lint" :=
      shortestPath([".git", "hooks"], ["vendor", "pkgA", "scripts"]) + "/pre-commit"]]];
    assert |expected| > 0 && expected.Keys == {"pre-commit"};
    assert AfterSaveGitHooks(d, expected) == Disk(true, Some(expected), {"pre-commit"});
  }

  /** The merge step of the example: one slot, for pre-commit. */
  lemma ExampleMerge(res: Resolver)
    requires res.hooksDir == [".git", "hooks"]
    ensures var f := HookFile(["vendor", "pkgA", "scripts"], "pre-commit");
      var expected := map["pre-commit" := map["pkgA" := map["lint" :=
        res.shortestPath([".git", "hooks"], ["vendor", "pkgA", "scripts"]) + "/pre-commit"]]];
      Aggregate(map[], "pkgA", ["lint"], map["lint" := [f]], res) == Success(expected)
  {
    var f := HookFile(["vendor", "pkgA", "scripts"], "pre-commit");
    var available := map["lint" := [f]];
    var expected := map["pre-commit" := map["pkgA" := map["lint" := RelativeHookPath(res, f)]]];
    assert RelativeHookPath(res, f) == res.shortestPath([".git", "hooks"], ["vendor", "pkgA", "scripts"]) + "/pre-commit";
    assert InsertFiles(map[], "pkgA", "lint", [f], res) == Insert(map[], "pkgA", "lint", f, res) == expected;
    assert Aggregate(map[], "pkgA", [], available, res) == Success(map[]);
  }

  /**
   * Requiring a hook name other than the package's group name aborts the
   * install with a missing-hook error naming the package and the hook, and
   * writes nothing: required names are matched against group names, not
   * against the names of the hook files.
   */
  lemma ExampleMissingHook(shortestPath: (Path, Path) -> string, d: Disk, groupName: string, hookName: string)
    requires d.gitDirPresent && groupName != hookName
    ensures var cfg := Config(Resolver([".git", "hooks"], shortestPath), map["pkgA" := [hookName]]);
      AfterInstall(d, cfg, ExamplePackage(groupName)) == Transition(d, Fail(MissingHook("pkgA", hookName)))
  {
    var res := Resolver([".git", "hooks"], shortestPath);
    var cfg := Config(res, map["pkgA" := [hookName]]);
    ExampleDiscover(groupName);
    var available := Discover(ExamplePackage(groupName)).value;
    assert hookName !in available;
    assert [hookName][..0] == [];
    assert Aggregate(Loaded(d), "pkgA", [hookName], available, res) == Failure(MissingHook("pkgA", hookName));
    assert Active(d, cfg, ExamplePackage(groupName));
  }

  /**
   * The package declares its pre-commit script under the group "hooks" and the
   * root package requires "lint" from it: the install fails with a missing
   * "lint" hook and the disk is left as it was, although scripts/pre-commit exists.
   */
  lemma ExampleGroupNameMismatch(shortestPath: (Path, Path) -> string, d: Disk)
    requires d.gitDirPresent
    ensures var cfg := Config(Resolver([".git", "hooks"], shortestPath), map["pkgA" := ["lint"]]);
      AfterInstall(d, cfg, ExamplePackage("hooks")) == Transition(d, Fail(MissingHook("pkgA", "lint")))
  {
    ExampleMissingHook(shortestPath, d, "hooks", "lint");
  }
}
