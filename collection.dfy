/**
 * The hook collection: hook type -> package name -> hook name -> path of the
 * hook script relative to the git hooks directory. Install merges a package's
 * required hooks into it; uninstall strips a package out and prunes hook types
 * left without contributors.
 */
module Collection {
  import opened Wrappers
  import opened Discovery

  /** Hook name -> relative path of the script. */
  type HookPathMap = map<string, string>
  /** Package name -> that package's hooks of one type. */
  type PackageHookMap = map<string, HookPathMap>
  /** Hook type -> contributing packages. */
  type HookCollection = map<string, PackageHookMap>

  /**
   * Path resolution: the git hooks directory and the host's shortest-relative-path
   * routine, which is not part of this model and enters as a parameter.
   */
  datatype Resolver = Resolver(hooksDir: Path, shortestPath: (Path, Path) -> string)

  /** The path stored for a hook file: from the hooks directory to the file's directory, then the file's name. */
  function RelativeHookPath(res: Resolver, f: HookFile): string
  {
    res.shortestPath(res.hooksDir, f.dir) + "/" + f.name
  }

  /** The path stored at (hook type, package, hook name), if any. */
  function Slot(c: HookCollection, t: string, p: string, h: string): Option<string>
  {
    if t in c && p in c[t] && h in c[t][p] then Some(c[t][p][h]) else None
  }

  /** No hook type maps to an empty package map and no package to an empty hook map. */
  predicate WellFormed(c: HookCollection)
  {
    && (forall t :: t in c ==> c[t] != map[])
    && (forall t, p :: t in c && p in c[t] ==> c[t][p] != map[])
  }

  /** A hook type of a well-formed collection is a key of any collection with the same slots. */
  lemma HookTypeShared(a: HookCollection, b: HookCollection, t: string)
    requires WellFormed(a) && t in a
    requires forall p, h :: Slot(a, t, p, h) == Slot(b, t, p, h)
    ensures t in b
  {
    var p :| p in a[t];
    var h :| h in a[t][p];
    assert Slot(a, t, p, h).Some?;
  }

  /** Well-formed collections with the same slots agree on the package map of a shared hook type. */
  lemma PackageMapShared(a: HookCollection, b: HookCollection, t: string)
    requires WellFormed(a) && WellFormed(b) && t in a && t in b
    requires forall p, h :: Slot(a, t, p, h) == Slot(b, t, p, h)
    ensures a[t] == b[t]
  {
    forall p | p in a[t] ensures p in b[t] && a[t][p] == b[t][p] {
      var h :| h in a[t][p];
      assert Slot(a, t, p, h).Some?;
      forall h | h in a[t][p] ensures h in b[t][p] && a[t][p][h] == b[t][p][h] {
        assert Slot(a, t, p, h).Some?;
      }
      forall h | h in b[t][p] ensures h in a[t][p] {
        assert Slot(b, t, p, h).Some?;
      }
    }
    forall p | p in b[t] ensures p in a[t] {
      var h :| h in b[t][p];
      assert Slot(b, t, p, h).Some?;
    }
  }

  /** Two well-formed collections with the same slots are the same collection. */
  lemma SlotsDetermine(a: HookCollection, b: HookCollection)
    requires WellFormed(a) && WellFormed(b)
    requires forall t, p, h :: Slot(a, t, p, h) == Slot(b, t, p, h)
    ensures a == b
  {
    forall t | t in a ensures t in b && a[t] == b[t] {
      HookTypeShared(a, b, t);
      PackageMapShared(a, b, t);
    }
    forall t | t in b ensures t in a {
      HookTypeShared(b, a, t);
    }
  }

  /** Records hook file `f` of package `pkg` under hook name `h`, creating the type and package maps when missing. */
  function Insert(c: HookCollection, pkg: string, h: string, f: HookFile, res: Resolver): (r: HookCollection)
    ensures forall t, p, g ::
      Slot(r, t, p, g) == (if t == f.name && p == pkg && g == h then Some(RelativeHookPath(res, f)) else Slot(c, t, p, g))
    ensures r.Keys == c.Keys + {f.name}
  {
    var packages := if f.name in c then c[f.name] else map[];
    var hooks := if pkg in packages then packages[pkg] else map[];
    c[f.name := packages[pkg := hooks[h := RelativeHookPath(res, f)]]]
  }

  /** Recording a hook file never leaves an empty map behind. */
  lemma InsertWellFormed(c: HookCollection, pkg: string, h: string, f: HookFile, res: Resolver)
    requires WellFormed(c)
    ensures WellFormed(Insert(c, pkg, h, f, res))
  {
    var r := Insert(c, pkg, h, f, res);
    forall t, p | t in r && p in r[t] ensures r[t][p] != map[] {
      if t == f.name && p == pkg {
        assert Slot(r, t, p, h).Some?;
      } else {
        assert t in c && p in c[t] && r[t][p] == c[t][p];
      }
    }
  }

  /** The hook types the files are named after. */
  function HookTypes(files: seq<HookFile>): set<string>
  {
    set f | f in files :: f.name
  }

  /** Some file is named after hook type `t`. */
  predicate HasType(files: seq<HookFile>, t: string)
  {
    exists f :: f in files && f.name == t
  }

  /** The last file named after hook type `t`. */
  function LastOfType(files: seq<HookFile>, t: string): (r: HookFile)
    requires HasType(files, t)
    ensures r.name == t
    ensures exists k :: 0 <= k < |files| && files[k] == r && forall j :: k < j < |files| ==> files[j].name != t
  {
    var n := |files|;
    if files[n - 1].name == t then files[n - 1]
    else
      assert HasType(files[..n - 1], t) by {
        var f :| f in files && f.name == t;
        var k :| 0 <= k < n && files[k] == f;
        assert files[..n - 1][k] == f;
      }
      var r := LastOfType(files[..n - 1], t);
      r
  }

  /** Records every file of hook name `h`, in order (the inner loop of install). */
  function InsertFiles(c: HookCollection, pkg: string, h: string, files: seq<HookFile>, res: Resolver): HookCollection
    decreases |files|
  {
    if files == [] then c
    else Insert(InsertFiles(c, pkg, h, files[..|files| - 1], res), pkg, h, files[|files| - 1], res)
  }

  /**
   * After recording the files of hook name `h`, the slot of each hook type they
   * name holds the path of the LAST such file; every other slot is unchanged.
   */
  lemma {:induction false} InsertFilesSlot(c: HookCollection, pkg: string, h: string, files: seq<HookFile>, res: Resolver, t: string, p: string, g: string)
    ensures Slot(InsertFiles(c, pkg, h, files, res), t, p, g) ==
      if p == pkg && g == h && HasType(files, t) then Some(RelativeHookPath(res, LastOfType(files, t)))
      else Slot(c, t, p, g)
    decreases |files|
  {
    if files != [] {
      var init, last := files[..|files| - 1], files[|files| - 1];
      InsertFilesSlot(c, pkg, h, init, res, t, p, g);
      assert files == init + [last];
      if p == pkg && g == h && last.name != t && HasType(files, t) {
        var f :| f in files && f.name == t;
        assert f in init;
      }
      if HasType(init, t) {
        var f :| f in init && f.name == t;
        assert f in files;
      }
    }
  }

  /** Recording files adds exactly the hook types they name. */
  lemma {:induction false} InsertFilesKeys(c: HookCollection, pkg: string, h: string, files: seq<HookFile>, res: Resolver)
    ensures InsertFiles(c, pkg, h, files, res).Keys == c.Keys + HookTypes(files)
    decreases |files|
  {
    if files != [] {
      var init, last := files[..|files| - 1], files[|files| - 1];
      InsertFilesKeys(c, pkg, h, init, res);
      HookTypesSnoc(files);
    }
  }

  /** The hook types of a file list are those of all but its last file, plus the last one's. */
  lemma HookTypesSnoc(files: seq<HookFile>)
    requires files != []
    ensures HookTypes(files) == HookTypes(files[..|files| - 1]) + {files[|files| - 1].name}
  {
    var init := files[..|files| - 1];
    assert files == init + [files[|files| - 1]];
    forall f | f in files ensures f in init || f == files[|files| - 1] {
    }
  }

  /** Recording files keeps the collection well formed. */
  lemma {:induction false} InsertFilesWellFormed(c: HookCollection, pkg: string, h: string, files: seq<HookFile>, res: Resolver)
    requires WellFormed(c)
    ensures WellFormed(InsertFiles(c, pkg, h, files, res))
    decreases |files|
  {
    if files != [] {
      var init, last := files[..|files| - 1], files[|files| - 1];
      InsertFilesWellFormed(c, pkg, h, init, res);
      InsertWellFormed(InsertFiles(c, pkg, h, init, res), pkg, h, last, res);
    }
  }

  /**
   * The merge loop of install: for each required hook name in order, fail if the
   * package does not provide it, otherwise record all of its files.
   */
  function Aggregate(c: HookCollection, pkg: string, required: seq<string>, available: AvailableHooks, res: Resolver): Result<HookCollection, Error>
    decreases |required|
  {
    if required == [] then Success(c)
    else
      var h := required[|required| - 1];
      match Aggregate(c, pkg, required[..|required| - 1], available, res)
      case Failure(e) => Failure(e)
      case Success(c') =>
        if h !in available then Failure(MissingHook(pkg, h))
        else Success(InsertFiles(c', pkg, h, available[h], res))
  }

  /** The first required hook name the package does not provide. */
  predicate FirstMissing(required: seq<string>, available: AvailableHooks, k: int)
  {
    0 <= k < |required| && required[k] !in available && forall j :: 0 <= j < k ==> required[j] in available
  }

  /**
   * The merge fails exactly when some required hook name is not provided, and
   * then it names the package and the first such hook.
   */
  lemma {:induction false} AggregateFailure(c: HookCollection, pkg: string, required: seq<string>, available: AvailableHooks, res: Resolver)
    ensures Aggregate(c, pkg, required, available, res).Success? <==> forall h :: h in required ==> h in available
    ensures Aggregate(c, pkg, required, available, res).Failure? ==>
      exists k :: FirstMissing(required, available, k) &&
        Aggregate(c, pkg, required, available, res).error == MissingHook(pkg, required[k])
    decreases |required|
  {
    if required != [] {
      var init, h := required[..|required| - 1], required[|required| - 1];
      AggregateFailure(c, pkg, init, available, res);
      assert required == init + [h];
      if Aggregate(c, pkg, init, available, res).Failure? {
        var k :| FirstMissing(init, available, k) && Aggregate(c, pkg, init, available, res).error == MissingHook(pkg, init[k]);
        assert FirstMissing(required, available, k);
      } else if h !in available {
        assert FirstMissing(required, available, |required| - 1);
      }
    }
  }

  /** Once a prefix of the required hook names fails, the whole merge fails with the same error. */
  lemma {:induction false} AggregateFailureStops(c: HookCollection, pkg: string, required: seq<string>, available: AvailableHooks, res: Resolver, n: nat)
    requires n <= |required|
    requires Aggregate(c, pkg, required[..n], available, res).Failure?
    ensures Aggregate(c, pkg, required, available, res) == Aggregate(c, pkg, required[..n], available, res)
    decreases |required| - n
  {
    if n < |required| {
      assert required[..n + 1][..n] == required[..n];
      AggregateFailureStops(c, pkg, required, available, res, n + 1);
    } else {
      assert required[..n] == required;
    }
  }

  /**
   * A successful merge sets, for every required hook name g and every hook type t
   * one of g's files is named after, the slot (t, pkg, g) to the relative path
   * of the last such file; all other slots, in particular every other package's,
   * are unchanged.
   */
  lemma {:induction false} AggregateSlot(c: HookCollection, pkg: string, required: seq<string>, available: AvailableHooks, res: Resolver, t: string, p: string, g: string)
    requires Aggregate(c, pkg, required, available, res).Success?
    ensures Slot(Aggregate(c, pkg, required, available, res).value, t, p, g) ==
      if p == pkg && g in required && g in available && HasType(available[g], t)
      then Some(RelativeHookPath(res, LastOfType(available[g], t)))
      else Slot(c, t, p, g)
    decreases |required|
  {
    if required != [] {
      var init, h := required[..|required| - 1], required[|required| - 1];
      AggregateSlot(c, pkg, init, available, res, t, p, g);
      var c' := Aggregate(c, pkg, init, available, res).value;
      InsertFilesSlot(c', pkg, h, available[h], res, t, p, g);
      assert required == init + [h];
    }
  }

  /** A successful merge keeps the collection well formed and adds exactly the hook types of the required files. */
  lemma {:induction false} AggregateShape(c: HookCollection, pkg: string, required: seq<string>, available: AvailableHooks, res: Resolver)
    requires Aggregate(c, pkg, required, available, res).Success?
    ensures WellFormed(c) ==> WellFormed(Aggregate(c, pkg, required, available, res).value)
    ensures forall t :: t in Aggregate(c, pkg, required, available, res).value <==>
      t in c || exists g :: g in required && g in available && t in HookTypes(available[g])
    decreases |required|
  {
    if required != [] {
      var init, h := required[..|required| - 1], required[|required| - 1];
      AggregateShape(c, pkg, init, available, res);
      var c' := Aggregate(c, pkg, init, available, res).value;
      InsertFilesKeys(c', pkg, h, available[h], res);
      if WellFormed(c) {
        InsertFilesWellFormed(c', pkg, h, available[h], res);
      }
      assert required == init + [h];
      forall t | exists g :: g in required && g in available && t in HookTypes(available[g])
        ensures t in Aggregate(c, pkg, required, available, res).value
      {
        var g :| g in required && g in available && t in HookTypes(available[g]);
        if g != h { assert g in init; }
      }
    }
  }

  /** Every hook type's package map without `pkg` (the by-reference loop of uninstall). */
  function RemovePackage(c: HookCollection, pkg: string): (r: HookCollection)
    ensures r.Keys == c.Keys
    ensures forall t, p, h :: Slot(r, t, p, h) == if p == pkg then None else Slot(c, t, p, h)
  {
    map t | t in c :: c[t] - {pkg}
  }

  /** The hook types whose package map is empty once `pkg` is removed: their dispatchers are deleted. */
  function Emptied(c: HookCollection, pkg: string): set<string>
  {
    set t | t in c && c[t] - {pkg} == map[]
  }

  /** A hook type is emptied exactly when `pkg` is its only contributor, if any. */
  lemma EmptiedIff(c: HookCollection, pkg: string, t: string)
    requires t in c
    ensures t in Emptied(c, pkg) <==> forall p :: p in c[t] ==> p == pkg
  {
    if forall p :: p in c[t] ==> p == pkg {
      assert (c[t] - {pkg}).Keys == {};
    }
    assert forall p :: p in c[t] && p != pkg ==> p in (c[t] - {pkg});
  }

  /** Drops the hook types that map to an empty package map. */
  function Prune(c: HookCollection): (r: HookCollection)
    ensures r.Keys <= c.Keys
    ensures forall t :: t in r ==> r[t] != map[]
    ensures forall t, p, h :: Slot(r, t, p, h) == Slot(c, t, p, h)
  {
    map t | t in c && c[t] != map[] :: c[t]
  }

  /** The collection after uninstalling `pkg`. */
  function Uninstalled(c: HookCollection, pkg: string): HookCollection
  {
    Prune(RemovePackage(c, pkg))
  }

  /** Uninstall leaves no empty map behind. */
  lemma UninstalledWellFormed(c: HookCollection, pkg: string)
    requires WellFormed(c)
    ensures WellFormed(Uninstalled(c, pkg))
  {
    var u := Uninstalled(c, pkg);
    forall t, p | t in u && p in u[t] ensures u[t][p] != map[] {
      assert t in c && p in c[t] && u[t][p] == c[t][p];
    }
  }

  /** Uninstall drops exactly the hook types it empties. */
  lemma UninstalledKeys(c: HookCollection, pkg: string)
    ensures Uninstalled(c, pkg).Keys == c.Keys - Emptied(c, pkg)
  {
    var r := RemovePackage(c, pkg);
    forall t | t in c && t !in Emptied(c, pkg) ensures t in Uninstalled(c, pkg) {
      assert r[t] != map[];
    }
  }

  /**
   * Uninstall clears every slot of `pkg`, keeps every other slot, keeps the
   * collection well formed and drops exactly the emptied hook types.
   */
  lemma UninstalledSpec(c: HookCollection, pkg: string)
    requires WellFormed(c)
    ensures forall t, p, h :: Slot(Uninstalled(c, pkg), t, p, h) == if p == pkg then None else Slot(c, t, p, h)
    ensures WellFormed(Uninstalled(c, pkg))
    ensures Uninstalled(c, pkg).Keys == c.Keys - Emptied(c, pkg)
  {
    UninstalledWellFormed(c, pkg);
    UninstalledKeys(c, pkg);
  }

  /** `pkg` contributes nothing to `c`. */
  predicate Absent(c: HookCollection, pkg: string)
  {
    forall t :: t in c ==> pkg !in c[t]
  }

  /** Uninstalling a package that contributes nothing changes nothing and empties no hook type. */
  lemma UninstalledAbsent(c: HookCollection, pkg: string)
    requires WellFormed(c) && Absent(c, pkg)
    ensures Uninstalled(c, pkg) == c
    ensures Emptied(c, pkg) == {}
  {
    forall t | t in c ensures c[t] - {pkg} == c[t] && c[t] != map[] {
    }
    assert RemovePackage(c, pkg) == c;
    forall t | t in c ensures t !in Emptied(c, pkg) {
      EmptiedIff(c, pkg, t);
      var p :| p in c[t];
    }
  }

  /** Merging a package with no prior entries and then uninstalling it restores the collection. */
  lemma AggregateThenUninstall(c: HookCollection, pkg: string, required: seq<string>, available: AvailableHooks, res: Resolver)
    requires WellFormed(c) && Absent(c, pkg)
    requires Aggregate(c, pkg, required, available, res).Success?
    ensures Uninstalled(Aggregate(c, pkg, required, available, res).value, pkg) == c
  {
    var r := Aggregate(c, pkg, required, available, res).value;
    AggregateShape(c, pkg, required, available, res);
    UninstalledSpec(r, pkg);
    var u := Uninstalled(r, pkg);
    forall t, p, h ensures Slot(u, t, p, h) == Slot(c, t, p, h) {
      AggregateSlot(c, pkg, required, available, res, t, p, h);
    }
    SlotsDetermine(u, c);
  }

  /** A hook type the collection already had keeps another contributor, so uninstall does not empty it. */
  lemma KeptTypeNotEmptied(c: HookCollection, pkg: string, required: seq<string>, available: AvailableHooks, res: Resolver, t: string)
    requires WellFormed(c) && Absent(c, pkg) && t in c
    requires Aggregate(c, pkg, required, available, res).Success?
    ensures t !in Emptied(Aggregate(c, pkg, required, available, res).value, pkg)
  {
    var r := Aggregate(c, pkg, required, available, res).value;
    var p :| p in c[t];
    var h :| h in c[t][p];
    assert Slot(c, t, p, h).Some?;
    AggregateSlot(c, pkg, required, available, res, t, p, h);
    assert p in r[t] && p != pkg;
    EmptiedIff(r, pkg, t);
  }

  /** A hook type the merge added has the merged package as its only contributor, so uninstall empties it. */
  lemma NewTypeEmptied(c: HookCollection, pkg: string, required: seq<string>, available: AvailableHooks, res: Resolver, t: string)
    requires t !in c
    requires Aggregate(c, pkg, required, available, res).Success?
    requires WellFormed(Aggregate(c, pkg, required, available, res).value)
    requires t in Aggregate(c, pkg, required, available, res).value
    ensures t in Emptied(Aggregate(c, pkg, required, available, res).value, pkg)
  {
    var r := Aggregate(c, pkg, required, available, res).value;
    forall p | p in r[t] ensures p == pkg {
      var h :| h in r[t][p];
      assert Slot(r, t, p, h).Some?;
      AggregateSlot(c, pkg, required, available, res, t, p, h);
    }
    EmptiedIff(r, pkg, t);
  }

  /** The hook types uninstall then empties are exactly the ones the merge added. */
  lemma AggregateThenEmptied(c: HookCollection, pkg: string, required: seq<string>, available: AvailableHooks, res: Resolver)
    requires WellFormed(c) && Absent(c, pkg)
    requires Aggregate(c, pkg, required, available, res).Success?
    ensures Emptied(Aggregate(c, pkg, required, available, res).value, pkg) ==
      Aggregate(c, pkg, required, available, res).value.Keys - c.Keys
  {
    var r := Aggregate(c, pkg, required, available, res).value;
    AggregateShape(c, pkg, required, available, res);
    forall t | t in r ensures t in Emptied(r, pkg) <==> t !in c {
      if t in c {
        KeptTypeNotEmptied(c, pkg, required, available, res, t);
      } else {
        NewTypeEmptied(c, pkg, required, available, res, t);
      }
    }
  }
}
