/** `DirectoryAssemblyFinder`: loads the `*.dll` and then the `*.exe` files of
    one directory (top level only) and keeps the result in a process-wide
    dictionary keyed by the directory path. The filesystem and
    `Assembly.LoadFrom` are inputs: `FileSystem` says what `Directory.GetFiles`
    lists, `Loader` which assembly each file loads as. */
module AssemblyFinders {
  import opened Common
  import opened Sequences
  import opened Finders

  /** The files `Directory.GetFiles(path, "*.dll")` and
      `Directory.GetFiles(path, "*.exe")` list, in listing order. */
  datatype Listing = Listing(dlls: seq<string>, exes: seq<string>)

  /** Existing directories and their listings. */
  type FileSystem = map<string, Listing>

  /** `Assembly.LoadFrom`: the assembly a file loads as; a file missing from the
      map is not a loadable assembly and makes the load throw. */
  type Loader = map<string, AssemblyId>

  /** `Select(Assembly.LoadFrom)` over a file list: stops at the first file
      that does not load. */
  function LoadAll(files: seq<string>, loader: Loader): (r: Result<seq<AssemblyId>>)
    ensures r.Success? ==> |r.value| == |files|
    ensures r.Failure? ==> r.error.LoadFailed?
  {
    if |files| == 0 then Success([])
    else if files[0] !in loader then Failure(LoadFailed(files[0]))
    else match LoadAll(files[1..], loader)
      case Success(rest) => Success([loader[files[0]]] + rest)
      case Failure(e) => Failure(e)
  }

  /** Loading succeeds exactly when every file loads, and then yields the
      assembly of each file at its position; otherwise the error names a
      listed file that does not load. */
  lemma {:induction false} LoadAllMeaning(files: seq<string>, loader: Loader)
    ensures LoadAll(files, loader).Success? <==> forall f | f in files :: f in loader
    ensures LoadAll(files, loader).Success? ==>
              forall i | 0 <= i < |files| :: LoadAll(files, loader).value[i] == loader[files[i]]
    ensures LoadAll(files, loader).Failure? ==>
              LoadAll(files, loader).error.file in files && LoadAll(files, loader).error.file !in loader
  {
    if |files| > 0 {
      LoadAllMeaning(files[1..], loader);
      assert forall f | f in files :: f == files[0] || f in files[1..];
      assert forall f | f in files[1..] :: f in files;
    }
  }

  /** The scan pipeline: `*.dll` files, then `*.exe` files, each loaded, then
      `Distinct`. A missing directory or an unloadable file aborts the scan. */
  function ScanDirectory(fs: FileSystem, path: string, loader: Loader): (r: Result<seq<AssemblyId>>)
    ensures path !in fs ==> r == Failure(DirectoryNotFound(path))
    ensures r.Failure? ==> r.error == DirectoryNotFound(path) || r.error.LoadFailed?
  {
    if path !in fs then Failure(DirectoryNotFound(path))
    else
      match LoadAll(fs[path].dlls + fs[path].exes, loader)
      case Success(loaded) => Success(Distinct(loaded))
      case Failure(e) => Failure(e)
  }

  /** A scan of an existing directory succeeds exactly when every listed file
      loads; its result then holds every loaded assembly once and nothing
      else. */
  lemma {:induction false} ScanDirectoryMeaning(fs: FileSystem, path: string, loader: Loader)
    requires path in fs
    ensures ScanDirectory(fs, path, loader).Success? <==>
              forall f | f in fs[path].dlls + fs[path].exes :: f in loader
    ensures ScanDirectory(fs, path, loader).Success? ==>
              ScanHolds(ScanDirectory(fs, path, loader).value, fs[path].dlls + fs[path].exes, loader)
  {
    var files := fs[path].dlls + fs[path].exes;
    LoadAllMeaning(files, loader);
    var l := LoadAll(files, loader);
    if l.Success? {
      assert ScanDirectory(fs, path, loader).value == Distinct(l.value);
      DistinctHoldsLoaded(files, l.value, loader);
    }
  }

  /** `found` holds every assembly the files load to, once each, and nothing
      else. */
  ghost predicate ScanHolds(found: seq<AssemblyId>, files: seq<string>, loader: Loader) {
    && NoDuplicates(found)
    && (forall f | f in files :: f in loader && loader[f] in found)
    && (forall a | a in found :: exists f | f in files :: f in loader && loader[f] == a)
  }

  lemma {:induction false} DistinctHoldsLoaded(files: seq<string>, loaded: seq<AssemblyId>, loader: Loader)
    requires |loaded| == |files|
    requires forall i | 0 <= i < |files| :: files[i] in loader && loaded[i] == loader[files[i]]
    ensures ScanHolds(Distinct(loaded), files, loader)
  {
    DistinctSpec(loaded);
    forall f | f in files
      ensures f in loader && loader[f] in Distinct(loaded)
    {
      var i :| 0 <= i < |files| && files[i] == f;
      assert loaded[i] == loader[f];
    }
    forall a | a in Distinct(loaded)
      ensures exists f | f in files :: f in loader && loader[f] == a
    {
      var i :| 0 <= i < |loaded| && loaded[i] == a;
      assert files[i] in files;
    }
  }

  lemma {:induction false} LoadAllConcat(a: seq<string>, b: seq<string>, loader: Loader)
    requires LoadAll(a + b, loader).Success?
    ensures LoadAll(a, loader).Success? && LoadAll(b, loader).Success?
    ensures LoadAll(a + b, loader).value == LoadAll(a, loader).value + LoadAll(b, loader).value
  {
    if |a| == 0 {
      assert a + b == b;
    } else {
      var ab := a + b;
      assert ab[0] == a[0] && ab[1..] == a[1..] + b;
      assert a[0] in loader && LoadAll(a[1..] + b, loader).Success?;
      LoadAllConcat(a[1..], b, loader);
      assert LoadAll(a, loader) == Success([loader[a[0]]] + LoadAll(a[1..], loader).value);
    }
  }

  /** Result order: the distinct assemblies of the `*.dll` files in listing
      order, followed by those of the `*.exe` files that no `*.dll` file
      produced. */
  lemma {:induction false} DllsBeforeExes(fs: FileSystem, path: string, loader: Loader)
    requires ScanDirectory(fs, path, loader).Success?
    ensures var dlls := LoadAll(fs[path].dlls, loader);
            var exes := LoadAll(fs[path].exes, loader);
            dlls.Success? && exes.Success? &&
            ScanDirectory(fs, path, loader).value
              == Distinct(dlls.value) + Unseen(Distinct(exes.value), dlls.value)
  {
    LoadAllConcat(fs[path].dlls, fs[path].exes, loader);
    DistinctAppend(LoadAll(fs[path].dlls, loader).value, LoadAll(fs[path].exes, loader).value);
  }

  /** Three `*.dll` files where the third loads as the same assembly as the
      first: the scan yields the two distinct assemblies, in first-occurrence
      order. */
  lemma {:induction false} DuplicateLoadCollapses(fs: FileSystem, path: string, loader: Loader, x: string, y: string, z: string)
    requires path in fs && fs[path] == Listing([x, y, z], [])
    requires x in loader && y in loader && z in loader
    requires loader[z] == loader[x] && loader[y] != loader[x]
    ensures var r := ScanDirectory(fs, path, loader);
            r.Success? && r.value == [loader[x], loader[y]]
  {
    var files := [x, y, z];
    assert fs[path].dlls + fs[path].exes == files;
    assert files[1..] == [y, z] && files[1..][1..] == [z] && [z][1..] == [];
    var ax, ay := loader[x], loader[y];
    assert LoadAll([z][1..], loader) == Success([]);
    assert [ax] + [] == [ax];
    assert LoadAll([z], loader) == Success([ax]);
    assert LoadAll([y, z][1..], loader) == Success([ax]);
    assert [y, z][0] == y && [ay] + [ax] == [ay, ax];
    assert LoadAll([y, z], loader) == Success([ay, ax]);
    var loaded := [ax, ay, ax];
    assert files[0] == x && [ax] + [ay, ax] == loaded;
    assert LoadAll(files, loader) == Success(loaded);
    assert loaded[..2] == [ax, ay] && [ax, ay][..1] == [ax] && [ax][..0] == [];
    assert Distinct([ax]) == [ax];
    assert Distinct([ax, ay]) == [ax, ay];
  }

  /** The dictionary `d` after a scan of `path` that started from `d0`: a
      successful scan stores an array holding its result under `path` and
      changes no other entry; a failing scan changes nothing. */
  ghost predicate ScanStored(d0: map<string, array<AssemblyId>>, d: map<string, array<AssemblyId>>,
                             path: string, fs: FileSystem, loader: Loader)
    reads if path in d then {d[path]} else {}
  {
    match ScanDirectory(fs, path, loader)
    case Success(found) => path in d && d == d0[path := d[path]] && d[path][..] == found
    case Failure(_) => d == d0
  }

  /** The process-wide `CacheDict`: one object shared by every finder. */
  class AssemblyCache {
    var dict: map<string, array<AssemblyId>>

    constructor ()
      ensures dict == map[]
    {
      dict := map[];
    }
  }

  class DirectoryAssemblyFinder {
    const path: string
    const cacheDict: AssemblyCache

    /** Construction only records the path; no I/O. */
    constructor (path: string, cacheDict: AssemblyCache)
      ensures this.path == path && this.cacheDict == cacheDict
    {
      this.path := path;
      this.cacheDict := cacheDict;
    }

    /** What `FindAll(fromCache)` yields in the current state. */
    ghost function Answer(fromCache: bool, fs: FileSystem, loader: Loader): Result<seq<AssemblyId>>
      reads cacheDict, if path in cacheDict.dict then {cacheDict.dict[path]} else {}
    {
      if fromCache && path in cacheDict.dict then Success(cacheDict.dict[path][..])
      else ScanDirectory(fs, path, loader)
    }

    /** `FindAll(fromCache)`: a hit returns the cached array itself (no copy);
        otherwise the scan's fresh array overwrites the entry for this path,
        and a failing scan leaves the dictionary as it was. */
    method FindAll(fromCache: bool, fs: FileSystem, loader: Loader) returns (r: Result<array<AssemblyId>>)
      modifies cacheDict
      ensures Delivers(r, old(Answer(fromCache, fs, loader)))
      ensures fromCache && path in old(cacheDict.dict) ==>
                r == Success(old(cacheDict.dict)[path]) && cacheDict.dict == old(cacheDict.dict)
      ensures !(fromCache && path in old(cacheDict.dict)) && r.Success? ==>
                fresh(r.value) && cacheDict.dict == old(cacheDict.dict)[path := r.value]
      ensures r.Failure? ==> cacheDict.dict == old(cacheDict.dict)
      ensures !(fromCache && path in old(cacheDict.dict)) ==>
                ScanStored(old(cacheDict.dict), cacheDict.dict, path, fs, loader)
    {
      if fromCache && path in cacheDict.dict {
        return Success(cacheDict.dict[path]);
      }
      var scanned := ScanDirectory(fs, path, loader);
      match scanned {
        case Failure(e) =>
          return Failure(e);
        case Success(assemblies) =>
          var scannedArray := ToArray(assemblies);
          cacheDict.dict := cacheDict.dict[path := scannedArray];
          return Success(scannedArray);
      }
    }

    /** `Find(predicate, fromCache)`: `FindAll(fromCache)` followed by `Where`. */
    method Find(p: AssemblyId -> bool, fromCache: bool, fs: FileSystem, loader: Loader)
      returns (r: Result<array<AssemblyId>>)
      modifies cacheDict
      ensures Delivers(r, FilterResult(old(Answer(fromCache, fs, loader)), p))
      ensures r.Success? ==> fresh(r.value)
      ensures fromCache && path in old(cacheDict.dict) ==> cacheDict.dict == old(cacheDict.dict)
      ensures !(fromCache && path in old(cacheDict.dict)) ==>
                ScanStored(old(cacheDict.dict), cacheDict.dict, path, fs, loader) &&
                (path in cacheDict.dict && cacheDict.dict != old(cacheDict.dict) ==> fresh(cacheDict.dict[path]))
    {
      var all := FindAll(fromCache, fs, loader);
      match all {
        case Failure(e) =>
          return Failure(e);
        case Success(assemblies) =>
          var matching := ToArray(Filter(assemblies[..], p));
          return Success(matching);
      }
    }
  }

  /** The dictionary is shared: a second finder for the same path gets the
      first finder's array from `FindAll(true)`, even if the directory changed
      in between. */
  method SharedAcrossInstances(cacheDict: AssemblyCache, path: string,
                               fs: FileSystem, loader: Loader, fs2: FileSystem, loader2: Loader)
    returns (first: Result<array<AssemblyId>>, second: Result<array<AssemblyId>>)
    modifies cacheDict
    ensures first.Success? ==> second == first
  {
    var f1 := new DirectoryAssemblyFinder(path, cacheDict);
    first := f1.FindAll(false, fs, loader);
    var f2 := new DirectoryAssemblyFinder(path, cacheDict);
    second := f2.FindAll(true, fs2, loader2);
  }

  /** No defensive copy: writing into the array a cache hit returned changes
      what the next cache hit returns. */
  method CachedArrayIsShared(finder: DirectoryAssemblyFinder, x: AssemblyId, fs: FileSystem, loader: Loader)
    returns (second: Result<array<AssemblyId>>)
    requires finder.path in finder.cacheDict.dict
    requires finder.cacheDict.dict[finder.path].Length > 0
    modifies finder.cacheDict, finder.cacheDict.dict[finder.path]
    ensures second.Success? && second.value.Length > 0 && second.value[0] == x
  {
    var first := finder.FindAll(true, fs, loader);
    first.value[0] := x;
    second := finder.FindAll(true, fs, loader);
  }
}
