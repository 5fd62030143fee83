/**
 * The installer object: its fixed configuration and the disk state its
 * install, update and uninstall transitions change in place.
 */
module Installer {
  import opened Wrappers
  import opened Whitelist
  import opened Discovery
  import opened Collection
  import opened Engine

  class GitHooksInstaller {
    /** Whether the project directory holds a `.git` directory, so the hooks directory can be ensured. */
    const gitDirPresent: bool
    const config: Config
    /** The collection document in the hooks directory, if it exists. */
    var collectionDoc: Option<HookCollection>
    /** The hook types with a dispatcher file in the hooks directory. */
    var dispatchers: set<string>

    constructor (gitDirPresent: bool, config: Config, collectionDoc: Option<HookCollection>, dispatchers: set<string>)
      ensures State() == Disk(gitDirPresent, collectionDoc, dispatchers) && this.config == config
    {
      this.gitDirPresent := gitDirPresent;
      this.config := config;
      this.collectionDoc := collectionDoc;
      this.dispatchers := dispatchers;
    }

    /** The disk as the installer sees it. */
    function State(): Disk
      reads this
    {
      Disk(gitDirPresent, collectionDoc, dispatchers)
    }

    /** Reads the collection: nothing outside a git working copy, the empty collection when there is no document. */
    method GetInstalledGitHooks() returns (c: Option<HookCollection>)
      ensures c.None? <==> !gitDirPresent
      ensures c.Some? && collectionDoc.None? ==> c.value == map[]
      ensures c.Some? && collectionDoc.Some? ==> c.value == collectionDoc.value
    {
      if !gitDirPresent {
        return None;
      }
      if collectionDoc.None? {
        return Some(map[]);
      }
      return Some(collectionDoc.value);
    }

    /** Writes a non-empty collection to the document, or deletes the document. */
    method SaveGitHookCollection(c: HookCollection)
      modifies this`collectionDoc
      ensures State() == AfterSaveCollection(old(State()), c)
    {
      if !gitDirPresent {
        return;
      }
      if |c| > 0 {
        collectionDoc := Some(c);
      } else {
        collectionDoc := None;
      }
    }

    /** Saves the collection, then replaces the dispatcher file of every hook type in it. */
    method SaveGitHooks(c: HookCollection)
      modifies this
      ensures State() == AfterSaveGitHooks(old(State()), c)
    {
      if !gitDirPresent {
        return;
      }
      SaveGitHookCollection(c);
      WriteDispatchers(c.Keys);
    }

    /** The dispatcher loop of SaveGitHooks: replaces the dispatcher file of each hook type. */
    method WriteDispatchers(hookTypes: set<string>)
      modifies this`dispatchers
      ensures dispatchers == old(dispatchers) + hookTypes
    {
      var todo := hookTypes;
      while todo != {}
        invariant todo <= hookTypes
        invariant dispatchers == old(dispatchers) + (hookTypes - todo)
        decreases todo
      {
        var hookType :| hookType in todo;
        // remove the old file, then write the template in its place
        dispatchers := dispatchers - {hookType};
        dispatchers := dispatchers + {hookType};
        todo := todo - {hookType};
      }
    }

    /**
     * Merges the hooks the root package requires from `pkg` into the collection
     * and saves it; fails, persisting nothing, when a group directory is missing
     * or a required hook is not provided.
     */
    method InstallGitHooks(pkg: Package) returns (r: Outcome<Error>)
      modifies this
      ensures Transition(State(), r) == AfterInstall(old(State()), config, pkg)
    {
      if !HasInstallableGitHooks(pkg) || !gitDirPresent {
        return Pass;
      }
      if pkg.name !in config.requiredHooks {
        return Pass;
      }
      var requiredHooks := config.requiredHooks[pkg.name];
      var found := FindPackageGitHooks(pkg);
      if found.Failure? {
        return Fail(found.error);
      }
      var loaded := GetInstalledGitHooks();
      var installedHooks := if loaded.Some? then loaded.value else map[];
      var merged := MergeRequiredHooks(installedHooks, pkg.name, requiredHooks, found.value);
      if merged.Failure? {
        return Fail(merged.error);
      }
      SaveGitHooks(merged.value);
      r := Pass;
    }

    /**
     * The outer loop of install: for each required hook name, fail if the package
     * does not provide it, otherwise record its files.
     */
    method MergeRequiredHooks(installed: HookCollection, pkgName: string, requiredHooks: seq<string>, availableHooks: AvailableHooks)
      returns (r: Result<HookCollection, Error>)
      ensures r == Aggregate(installed, pkgName, requiredHooks, availableHooks, config.resolver)
    {
      var installedHooks := installed;
      var i := 0;
      while i < |requiredHooks|
        invariant 0 <= i <= |requiredHooks|
        invariant Aggregate(installed, pkgName, requiredHooks[..i], availableHooks, config.resolver) == Success(installedHooks)
      {
        var hookName := requiredHooks[i];
        assert requiredHooks[..i + 1][..i] == requiredHooks[..i];
        if hookName !in availableHooks {
          AggregateFailureStops(installed, pkgName, requiredHooks, availableHooks, config.resolver, i + 1);
          return Failure(MissingHook(pkgName, hookName));
        }
        installedHooks := InsertHookFiles(installedHooks, pkgName, hookName, availableHooks[hookName]);
        i := i + 1;
      }
      assert requiredHooks[..i] == requiredHooks;
      r := Success(installedHooks);
    }

    /** The inner loop of install: records each file of one hook name under its hook type. */
    method InsertHookFiles(installed: HookCollection, pkgName: string, hookName: string, files: seq<HookFile>)
      returns (installedHooks: HookCollection)
      ensures installedHooks == InsertFiles(installed, pkgName, hookName, files, config.resolver)
    {
      installedHooks := installed;
      var j := 0;
      while j < |files|
        invariant 0 <= j <= |files|
        invariant installedHooks == InsertFiles(installed, pkgName, hookName, files[..j], config.resolver)
      {
        assert files[..j + 1][..j] == files[..j];
        installedHooks := RecordHookFile(installedHooks, pkgName, hookName, files[j]);
        j := j + 1;
      }
      assert files[..j] == files;
    }

    /** The body of the inner loop: creates the type and package maps when missing, then stores the file's relative path. */
    method RecordHookFile(installed: HookCollection, pkgName: string, hookName: string, hookFile: HookFile)
      returns (installedHooks: HookCollection)
      ensures installedHooks == Insert(installed, pkgName, hookName, hookFile, config.resolver)
    {
      installedHooks := installed;
      var hookType := hookFile.name;
      if hookType !in installedHooks {
        installedHooks := installedHooks[hookType := map[]];
      }
      if pkgName !in installedHooks[hookType] {
        installedHooks := installedHooks[hookType := installedHooks[hookType][pkgName := map[]]];
      }
      var relativeHookPath := config.resolver.shortestPath(config.resolver.hooksDir, hookFile.dir);
      var hooks := installedHooks[hookType][pkgName][hookName := relativeHookPath + "/" + hookType];
      ghost var packages := if hookType in installed then installed[hookType] else map[];
      ghost var previousHooks := if pkgName in packages then packages[pkgName] else map[];
      assert installedHooks[hookType] == packages[pkgName := previousHooks];
      assert installedHooks == installed[hookType := installedHooks[hookType]];
      assert hooks == previousHooks[hookName := RelativeHookPath(config.resolver, hookFile)];
      ghost var middle := installedHooks;
      assert middle[hookType][pkgName := hooks] == packages[pkgName := hooks];
      installedHooks := installedHooks[hookType := installedHooks[hookType][pkgName := hooks]];
      assert installedHooks == installed[hookType := packages[pkgName := hooks]];
    }

    /**
     * Removes `pkg` from every hook type, deleting the dispatcher of each type it
     * leaves empty, and saves the collection without the empty types.
     */
    method UninstallGitHooks(pkg: Package)
      modifies this
      ensures State() == AfterUninstall(old(State()), pkg.name)
    {
      if !gitDirPresent {
        return;
      }
      var loaded := GetInstalledGitHooks();
      var installedHooks := if loaded.Some? then loaded.value else map[];
      installedHooks := RemovePackageHooks(installedHooks, pkg.name);
      SaveGitHookCollection(Prune(installedHooks));
    }

    /**
     * The by-reference loop of uninstall: drops the package from every hook type
     * and deletes the dispatcher of every type left without packages.
     */
    method RemovePackageHooks(installed: HookCollection, pkgName: string) returns (installedHooks: HookCollection)
      modifies this`dispatchers
      ensures installedHooks == RemovePackage(installed, pkgName)
      ensures dispatchers == old(dispatchers) - Emptied(installed, pkgName)
    {
      installedHooks := installed;
      var todo := installedHooks.Keys;
      while todo != {}
        invariant todo <= installed.Keys
        invariant installedHooks.Keys == installed.Keys
        invariant forall t :: t in todo ==> installedHooks[t] == installed[t]
        invariant forall t :: t in installed && t !in todo ==> installedHooks[t] == installed[t] - {pkgName}
        invariant dispatchers == old(dispatchers) - (Emptied(installed, pkgName) - todo)
        decreases todo
      {
        var hookType :| hookType in todo;
        var hooks := installedHooks[hookType] - {pkgName};
        EmptiedStep(installed, pkgName, hookType);
        installedHooks := installedHooks[hookType := hooks];
        if |hooks| == 0 {
          dispatchers := dispatchers - {hookType};
        }
        todo := todo - {hookType};
      }
      RemovedEverywhere(installed, installedHooks, pkgName);
    }

    /** Uninstalls the initial package, then installs the target one. */
    method Update(initial: Package, target: Package) returns (r: Outcome<Error>)
      modifies this
      ensures Transition(State(), r) == AfterUpdate(old(State()), config, initial, target)
    {
      UninstallGitHooks(initial);
      r := InstallGitHooks(target);
    }
  }

  /** The uninstall loop deletes a dispatcher exactly for the hook types in `Emptied`. */
  lemma EmptiedStep(installed: HookCollection, pkgName: string, hookType: string)
    requires hookType in installed
    ensures |installed[hookType] - {pkgName}| == 0 <==> hookType in Emptied(installed, pkgName)
  {
  }

  /** Once every hook type has been visited, the loop's collection is `RemovePackage`'s. */
  lemma RemovedEverywhere(installed: HookCollection, installedHooks: HookCollection, pkgName: string)
    requires installedHooks.Keys == installed.Keys
    requires forall t :: t in installed ==> installedHooks[t] == installed[t] - {pkgName}
    ensures installedHooks == RemovePackage(installed, pkgName)
  {
  }
}
