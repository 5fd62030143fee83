# Git hooks installer: the hook aggregation engine

This project models the core of a Composer installer plugin in Dafny. The plugin
installs git hooks that library packages provide. Each package declares named
groups of hook files (group name -> directory). The root package says which
groups it wants from which package. The installer keeps one collection on disk,
`.git/hooks/viison-hooks.json`, mapping

    hook type -> package name -> hook (group) name -> path of the hook file, relative to .git/hooks

and writes one dispatcher file `.git/hooks/<hook type>` for each hook type that
is a key of the collection.

The model has six modules:

- `Wrappers` (`wrappers.dfy`): `Option`, `Result` and `Outcome`.
- `Whitelist` (`whitelist.dfy`): the ten hook file names the installer accepts.
- `Discovery` (`discovery.dfy`): packages, their directory trees, and the
  whitelist-filtered recursive walk that finds each group's hook files.
- `Collection` (`collection.dfy`): the three-level collection as a Dafny `map`,
  with merging one package in (install) and stripping one package out
  (uninstall) as functions, and the lemmas about them.
- `Engine` (`engine.dfy`): the disk state (is there a `.git` directory, the
  collection document if present, the set of hook types with a dispatcher). It
  gives the transitions `AfterInstall`, `AfterUninstall` and `AfterUpdate` as
  functions of the disk and proves the properties that relate them.
- `Installer` (`installer.dfy`): the class `GitHooksInstaller`. Its fields are
  that disk state, and its methods follow the PHP methods loop for loop. Each
  method is proved to leave exactly the state the matching `Engine` function
  gives.

Two inputs are parameters:

- The shortest relative path from the hooks directory to a file's directory
  (Composer's `Filesystem::findShortestPath`) is a function value in `Resolver`.
- The root package's required hooks are the map `Config.requiredHooks`.

### Behaviours of the code worth knowing

- A slot is keyed by (hook type, package, hook name), because line 120 writes
  `[$hookType][$packageName][$hookName]`. Two groups of one package that both
  hold a `pre-commit` file therefore both keep an entry, and a later write
  replaces an earlier one only within one group.
- Install merges into the package's existing map for a hook type (lines 114-116).
  It does not replace the package's earlier entries. Replacement happens only
  through update, which uninstalls first (`Engine.UpdateReplaces`).
- `saveGitHooks` rewrites the dispatcher of every hook type in the collection
  (line 169), and not only the types the current transition touched.
- Required hook names are matched against the package's group names (line 102),
  not against the names of hook files. A package that declares its
  `scripts/pre-commit` under the group `hooks`, installed by a root package
  that requires `lint` from it, fails with a missing `lint` hook and writes
  nothing (`Engine.ExampleGroupNameMismatch`).
- Update persists the uninstall of the initial package even when the install
  of the target then fails. The two steps are separate writes (lines 61-63).

## Model

| member | source | states |
|---|---|---|
| Whitelist.IsValidHookType | src/GitHooksInstaller.php:296 | a file name is a hook type iff it is in the whitelist |
| Whitelist.GitHookWhitelist | src/GitHooksInstaller.php:309-323 | the whitelist has ten distinct names, among them pre-commit, pre-push and commit-msg |
| Whitelist.NotAHookIsRejected | src/GitHooksInstaller.php:296 | names outside the list (not-a-hook, post-commit, pre-commit.sample) are rejected; pre-commit and update are accepted |
| Discovery.HasInstallableGitHooks | src/GitHooksInstaller.php:206-213 | a package has installable hooks iff it declares a non-empty available-hooks array |
| Discovery.HookFiles | src/GitHooksInstaller.php:287-302 | the walk of one directory listing, entry by entry in listing order; characterised by `HookFilesExact` |
| Discovery.EntryHookFiles | src/GitHooksInstaller.php:293-298 | one entry's contribution: a whitelisted regular file itself, a directory the walk below it |
| Discovery.FindDir | src/GitHooksInstaller.php:290-294 | a found directory is an entry of the listing; with distinct entry names, an existing directory is always found with its own children |
| Discovery.HookFilesExact | src/GitHooksInstaller.php:287-302 | a file is listed iff its name is whitelisted, it lies below the walked directory, and the tree holds a regular file at that relative path, at any depth |
| Discovery.EntryHookFilesExact | src/GitHooksInstaller.php:293-298 | the same characterisation for one directory entry: a file entry contributes itself iff whitelisted, a directory contributes what lies below it |
| Discovery.HookFilesNoDuplicates | src/GitHooksInstaller.php:287-302 | when every directory lists distinct names, the walk lists each hook file exactly once |
| Discovery.EntryHookFilesNoDuplicates | src/GitHooksInstaller.php:293-298 | the same for the files below one directory entry |
| Discovery.HookFilesWhitelisted | src/GitHooksInstaller.php:296-297 | every listed file has a whitelisted name |
| Discovery.DiscoverGroups | src/GitHooksInstaller.php:231-233 | the walk of each declared group in declaration order, a later group of the same name replacing an earlier one, failing on the first missing directory |
| Discovery.Discover | src/GitHooksInstaller.php:223-236 | no hooks for a package without installable hooks, otherwise the walk of its groups; characterised by `DiscoverGroupsSpec` |
| Discovery.ListHookFilesRecursively | src/GitHooksInstaller.php:287-302 | the loop-and-recursion walk returns exactly the files `HookFiles` characterises, in listing order |
| Discovery.DiscoverGroupsSpec | src/GitHooksInstaller.php:223-236 | discovery succeeds iff every group directory exists; on success the keys are exactly the group names and every file is whitelisted; a failure is DirectoryNotFound for the first declared group whose directory is missing |
| Discovery.DiscoverGroupsFiles | src/GitHooksInstaller.php:231-232 | with distinct group names, each group maps to the walk of its own directory |
| Discovery.FailureStops | src/GitHooksInstaller.php:231-232 | once a group directory is missing, later groups do not change the outcome |
| Discovery.FindPackageGitHooks | src/GitHooksInstaller.php:206-236 | the method's loop returns the discovery result: nothing for a package without installable hooks, otherwise the walk of every group |
| Collection.SlotsDetermine | src/GitHooksInstaller.php:152 | two collections without empty inner maps whose slots all agree are equal |
| Collection.RelativeHookPath | src/GitHooksInstaller.php:119-120 | the stored path: the shortest path from the hooks directory to the file's directory, then "/" and the base name |
| Collection.Insert | src/GitHooksInstaller.php:110-120 | recording a file sets slot (basename, package, hook name) to the relative path plus "/" plus basename; every other slot is unchanged; the keys gain the basename |
| Collection.InsertWellFormed | src/GitHooksInstaller.php:111-116 | recording a file creates the type and package maps as needed, so no inner map is left empty |
| Collection.LastOfType | src/GitHooksInstaller.php:109-120 | picks a file of the given type with no later file of that type in the list |
| Collection.InsertFilesSlot | src/GitHooksInstaller.php:109-121 | after recording a group's files, a slot of this package and hook name holds the last file of its type (later writes win); other slots are unchanged |
| Collection.InsertFilesKeys | src/GitHooksInstaller.php:109-121 | recording a group's files adds exactly the files' types as keys |
| Collection.InsertFiles | src/GitHooksInstaller.php:109-121 | records one group's files in order; characterised by `InsertFilesSlot` and `InsertFilesKeys` |
| Collection.InsertFilesWellFormed | src/GitHooksInstaller.php:109-121 | recording a group's files keeps every inner map non-empty |
| Collection.Aggregate | src/GitHooksInstaller.php:101-122 | records every required group in order and fails at the first name the package does not provide; characterised by `AggregateFailure`, `AggregateSlot` and `AggregateShape` |
| Collection.AggregateFailure | src/GitHooksInstaller.php:101-106 | merging succeeds iff every required name is an available group; on failure the error is MissingHook for the first missing name |
| Collection.AggregateFailureStops | src/GitHooksInstaller.php:101-106 | once a required name is missing, later names do not change the outcome |
| Collection.AggregateSlot | src/GitHooksInstaller.php:101-122 | after a successful merge, slot (t, pkg, g) for a required group g holds the path of g's last file of type t; every slot of other packages and other hook names is as before |
| Collection.AggregateShape | src/GitHooksInstaller.php:101-122 | merging keeps the collection well formed; its keys are the old keys plus the types of the required groups' files |
| Collection.Emptied | src/GitHooksInstaller.php:145-146 | the hook types left with no package once the package is removed; characterised by `EmptiedIff` |
| Collection.Uninstalled | src/GitHooksInstaller.php:143-152 | the saved result of uninstall: remove the package, then drop the empty types; characterised by `UninstalledSpec` |
| Collection.RemovePackage | src/GitHooksInstaller.php:144-145 | after unsetting the package in every hook type, its slots are empty and all other slots are unchanged, with the same keys |
| Collection.EmptiedIff | src/GitHooksInstaller.php:146 | a hook type is emptied iff the package was its only contributor |
| Collection.Prune | src/GitHooksInstaller.php:152 | filtering drops empty hook types only: no key maps to an empty map and every slot is unchanged |
| Collection.UninstalledKeys | src/GitHooksInstaller.php:143-152 | the saved collection's keys are the old keys minus the emptied types |
| Collection.UninstalledWellFormed | src/GitHooksInstaller.php:143-152 | uninstall keeps the collection well formed |
| Collection.UninstalledSpec | src/GitHooksInstaller.php:143-152 | uninstall clears the package's slots, keeps all others, keeps the collection well formed and drops exactly the emptied types |
| Collection.UninstalledAbsent | src/GitHooksInstaller.php:143-152 | uninstalling a package with no entries changes nothing and empties no type |
| Collection.AggregateThenUninstall | src/GitHooksInstaller.php:101-152 | merging a package with no prior entries and then uninstalling it gives back the original collection |
| Collection.KeptTypeNotEmptied | src/GitHooksInstaller.php:101-152 | after such a merge, a previously present type is not emptied by uninstalling the package |
| Collection.NewTypeEmptied | src/GitHooksInstaller.php:101-152 | after such a merge, a type the merge added is emptied by uninstalling the package |
| Collection.AggregateThenEmptied | src/GitHooksInstaller.php:101-152 | after such a merge, uninstall empties exactly the types the merge added |
| Engine.Loaded | src/GitHooksInstaller.php:254-258 | reading the document: the stored collection, or the empty one when there is no document |
| Engine.AfterSaveCollection | src/GitHooksInstaller.php:186-200 | outside a git working copy nothing changes; otherwise the document exists iff the collection is non-empty and loads back as that collection; dispatchers are untouched |
| Engine.AfterSaveGitHooks | src/GitHooksInstaller.php:161-177 | outside a git working copy nothing changes; otherwise the collection is saved and every key gets a dispatcher, while earlier dispatchers stay |
| Engine.AfterInstall | src/GitHooksInstaller.php:84-126 | a failed install leaves the disk unchanged; without installable hooks, a git directory or a requirement for the package, install is a no-op |
| Engine.AfterUninstall | src/GitHooksInstaller.php:136-153 | uninstall never changes the git flag and is a no-op outside a git working copy |
| Engine.AfterUpdate | src/GitHooksInstaller.php:59-64 | update is uninstall of the initial package followed by install of the target; a no-op outside a git working copy |
| Engine.LoadedWellFormed | src/GitHooksInstaller.php:254-256 | on a consistent disk, the loaded collection is well formed and is empty iff there is no document |
| Engine.DiscoverWhitelisted | src/GitHooksInstaller.php:223-236 | every discovered file has a whitelisted name |
| Engine.InstallFailure | src/GitHooksInstaller.php:99-106 | an active install fails iff a group directory is missing or some required name is not a group; the error is DirectoryNotFound for the first group with a missing directory, or else MissingHook for the first required name that is not a group |
| Engine.InstallSaved | src/GitHooksInstaller.php:161-200 | after a successful install the document exists iff the saved collection is non-empty, and every hook type key has a dispatcher |
| Engine.InstallSlot | src/GitHooksInstaller.php:109-125 | a successful install sets the package's required slots to their last file's path and leaves all other slots of the loaded collection unchanged |
| Engine.InstallUnfold | src/GitHooksInstaller.php:99-125 | a successful active install saves the merge of the package into the loaded collection |
| Engine.AggregateWhitelisted | src/GitHooksInstaller.php:109-111 | merging whitelisted files into a collection of whitelisted types keeps all types whitelisted |
| Engine.SaveGitHooksConsistent | src/GitHooksInstaller.php:161-177 | saving a well-formed collection that keeps every loaded type keeps the disk invariant |
| Engine.InstallPreservesConsistent | src/GitHooksInstaller.php:84-126 | install keeps the invariant: dispatcher for T iff T is a key, no empty inner map, all keys whitelisted |
| Engine.UninstallSpec | src/GitHooksInstaller.php:136-153 | uninstall clears the package's slots, keeps all others, deletes exactly the emptied types' dispatchers, and deletes the document iff the result is empty |
| Engine.UninstallPreservesConsistent | src/GitHooksInstaller.php:136-153 | uninstall keeps the disk invariant |
| Engine.UpdatePreservesConsistent | src/GitHooksInstaller.php:59-64 | update keeps the disk invariant |
| Engine.SaveThenUninstall | src/GitHooksInstaller.php:136-177 | saving a collection whose uninstall gives back the loaded one, and whose emptied types are exactly its new ones, and then uninstalling restores the disk |
| Engine.UninstallAbsent | src/GitHooksInstaller.php:136-153 | uninstalling a package with no entries leaves a consistent disk unchanged |
| Engine.InstallThenUninstall | src/GitHooksInstaller.php:84-153 | for a package with no prior entries, a successful install followed by uninstall restores the disk: document (or its absence) and dispatchers |
| Engine.UpdateReplaces | src/GitHooksInstaller.php:59-64 | an update under the same package name replaces that package's slots wholesale by the target's, leaving other packages' slots as they were |
| Engine.InstallNothingRequired | src/GitHooksInstaller.php:101-125 | requiring an empty list of hooks leaves a consistent disk unchanged |
| Engine.UninstallKeepsShared | src/GitHooksInstaller.php:144-151 | a hook type another package still contributes to keeps its key, that package's entry and its dispatcher |
| Engine.ExampleDiscover | src/GitHooksInstaller.php:223-236 | discovery of a group, of any name, holding pre-commit and not-a-hook finds only pre-commit |
| Engine.ExampleInstall | src/GitHooksInstaller.php:84-126 | installing that package into an empty working copy writes one pre-commit entry and creates only the pre-commit dispatcher |
| Engine.ExampleMerge | src/GitHooksInstaller.php:101-122 | the merge step of that example produces one slot |
| Engine.ExampleMissingHook | src/GitHooksInstaller.php:101-106 | requiring a name other than the example package's group name fails with MissingHook naming the package and the hook, and writes nothing |
| Engine.ExampleGroupNameMismatch | src/GitHooksInstaller.php:101-106 | requiring "lint" from a package whose pre-commit script is in the group "hooks" fails with MissingHook("pkgA", "lint") and leaves the disk unchanged |
| Installer.GitHooksInstaller.constructor | src/GitHooksInstaller.php:268-277 | the object starts with the given git flag, configuration, document and dispatchers |
| Installer.GitHooksInstaller.GetInstalledGitHooks | src/GitHooksInstaller.php:245-259 | null outside a git working copy, the empty collection without a document, the document's collection otherwise |
| Installer.GitHooksInstaller.SaveGitHookCollection | src/GitHooksInstaller.php:186-200 | the new state is `AfterSaveCollection` of the old one |
| Installer.GitHooksInstaller.SaveGitHooks | src/GitHooksInstaller.php:161-177 | the new state is `AfterSaveGitHooks` of the old one |
| Installer.GitHooksInstaller.WriteDispatchers | src/GitHooksInstaller.php:169-176 | the loop leaves a dispatcher for every old type and every given type, and no other |
| Installer.GitHooksInstaller.InstallGitHooks | src/GitHooksInstaller.php:84-126 | the outcome and the new state are those of `AfterInstall` |
| Installer.GitHooksInstaller.MergeRequiredHooks | src/GitHooksInstaller.php:101-122 | the outer loop computes `Aggregate`, stopping at the first missing name |
| Installer.GitHooksInstaller.InsertHookFiles | src/GitHooksInstaller.php:109-121 | the inner loop computes `InsertFiles` |
| Installer.GitHooksInstaller.RecordHookFile | src/GitHooksInstaller.php:110-120 | the loop body computes `Insert` |
| Installer.GitHooksInstaller.UninstallGitHooks | src/GitHooksInstaller.php:136-153 | the new state is `AfterUninstall` of the old one |
| Installer.GitHooksInstaller.RemovePackageHooks | src/GitHooksInstaller.php:144-151 | the by-reference loop computes `RemovePackage` and deletes the dispatcher of exactly the emptied types |
| Installer.GitHooksInstaller.Update | src/GitHooksInstaller.php:59-64 | the outcome and the new state are those of `AfterUpdate` |

## Left out

- JSON encoding and parsing of the collection document (lines 194-195, 253-258) are left out. The document is an abstract stored map. A corrupt or hand-edited document, and duplicate JSON keys, are not modelled.
- `Filesystem::findShortestPath` (line 119) is a Composer library routine. It enters as the function parameter `Resolver.shortestPath`, with no properties assumed.
- `scandir`, `realpath`, `is_dir` and `is_file` (lines 290-296) are replaced by the `Node` tree. Symbolic links and path normalisation of `..` in group directories are not modelled.
- `scandir` (line 290) lists a directory in ascending order of names. The model walks each listing in the tree's own order and does not assume that order is sorted. So where `LastOfType` picks the last file of a type, the model leaves open which file that is, whereas in the source it is the last one of its sorted, depth-first walk.
- A missing group directory is modelled as a `DirectoryNotFound` failure that aborts the install. In PHP this is a `scandir` warning that Composer turns into an exception.
- `ensureGitHooksDir` (lines 268-277) is the fixed flag `gitDirPresent`. Creating `.git/hooks` is not modelled.
- The dispatcher files' contents, the template read (line 168) and `chmod` through `Silencer` (line 175) are left out. A dispatcher is a member of a set.
- The parent `LibraryInstaller` calls (lines 52, 62, 72) are Composer's download pipeline and are left out. `supports` (lines 42-45) is host glue.
- src/GitHooksInstallerPlugin.php (plugin registration) and res/git-hook-template.php (the runtime dispatcher, which executes hooks) are not part of this model.
- Concurrent runs of the installer are not modelled.
- Replacing a dispatcher (lines 172-173) is two set updates, a removal and an insertion. The moment in which the file is missing is not observable in the model.
- The install and uninstall loops are split into the helper methods `MergeRequiredHooks`, `InsertHookFiles`, `RecordHookFile` and `RemovePackageHooks`. Those mirror the nested `foreach` loops and their bodies, and `InstallGitHooks`/`UninstallGitHooks` call them.
