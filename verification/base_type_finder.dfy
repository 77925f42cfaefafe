/** `BaseTypeFinderBase<TBaseType>`: a finder of types whose scan takes every
    assembly the assembly collaborator knows (asked with `fromCache = true`),
    flattens their `GetTypes()`, keeps the types passing
    `IsDeriveClassFrom<TBaseType>()` and removes duplicates. The collaborator is
    a `DirectoryAssemblyFinder`; the per-instance cache is a `FinderBase`. */
module BaseTypeFinders {
  import opened Common
  import opened Sequences
  import opened Finders
  import opened AssemblyFinders
  import opened TypeExtension

  /** The loaded types: the type graph, and per assembly what `GetTypes()`
      returns; `GetTypes()` throws for an assembly missing from `declared`. */
  datatype Universe = Universe(types: TypeGraph, declared: map<AssemblyId, seq<TypeId>>)
  {
    /** Every type an assembly declares is a node of the type graph. */
    predicate Valid() {
      forall a, t | a in declared && t in declared[a] :: t in types
    }
  }

  /** `SelectMany(assembly => assembly.GetTypes())`: assembly-major,
      type-minor; the first assembly whose types cannot be loaded aborts it. */
  function AllTypes(u: Universe, assemblies: seq<AssemblyId>): (r: Result<seq<TypeId>>)
    ensures r.Success? <==> forall a | a in assemblies :: a in u.declared
    ensures r.Success? ==> forall t | t in r.value ::
              exists a | a in assemblies :: a in u.declared && t in u.declared[a]
    ensures r.Success? ==> forall a, t | a in assemblies && t in u.declared[a] :: t in r.value
    ensures r.Failure? ==> r.error.TypeLoadFailed? && r.error.assembly in assemblies &&
                           r.error.assembly !in u.declared
  {
    if |assemblies| == 0 then Success([])
    else if assemblies[0] !in u.declared then Failure(TypeLoadFailed(assemblies[0]))
    else match AllTypes(u, assemblies[1..])
      case Success(rest) => Success(u.declared[assemblies[0]] + rest)
      case Failure(e) => Failure(e)
  }

  /** `type.IsDeriveClassFrom<TBaseType>()` for a type `GetTypes()` yielded. */
  predicate Derives(g: TypeGraph, baseType: TypeId, t: TypeId) {
    t in g && baseType in g && IsDeriveClassFrom(g, Some(t), Some(baseType), false) == Success(true)
  }

  /** `FindAllItems`: sound (every result is an enumerated type that derives),
      complete (every enumerated type that derives is in the result), free of
      duplicates and of abstract and non-class types. */
  function FindAllItems(u: Universe, assemblies: seq<AssemblyId>, baseType: TypeId): (r: Result<seq<TypeId>>)
    ensures r.Success? <==> AllTypes(u, assemblies).Success?
    ensures r.Failure? ==> r == AllTypes(u, assemblies)
    ensures r.Success? ==> NoDuplicates(r.value)
    ensures r.Success? ==> forall t | t in r.value ::
              t in AllTypes(u, assemblies).value && Derives(u.types, baseType, t)
    ensures r.Success? ==> forall t | t in AllTypes(u, assemblies).value && Derives(u.types, baseType, t) ::
              t in r.value
    ensures r.Success? ==> forall t | t in r.value ::
              t in u.types && baseType in u.types &&
              u.types[t].isClass && !u.types[t].isAbstract && IsBaseOn(u.types, t, baseType)
  {
    match AllTypes(u, assemblies)
    case Success(types) =>
      var p := t => Derives(u.types, baseType, t);
      var derived := Filter(types, p);
      FilterSpec(types, p);
      DistinctSpec(derived);
      Success(Distinct(derived))
    case Failure(e) => Failure(e)
  }

  /** The result follows the first-occurrence order of the assembly-major,
      type-minor enumeration. */
  lemma {:induction false} FindAllItemsOrder(u: Universe, assemblies: seq<AssemblyId>, baseType: TypeId)
    requires FindAllItems(u, assemblies, baseType).Success?
    ensures var all := AllTypes(u, assemblies).value;
            var r := FindAllItems(u, assemblies, baseType).value;
            forall i, j | 0 <= i < j < |r| :: FirstIndex(all, r[i]) < FirstIndex(all, r[j])
  {
    var all := AllTypes(u, assemblies).value;
    var p := t => Derives(u.types, baseType, t);
    var r := FindAllItems(u, assemblies, baseType).value;
    DistinctFilterCommute(all, p);
    assert r == Filter(Distinct(all), p);
    DistinctFirstOccurrenceOrder(all);
    FilterKeepsOrder(Distinct(all), p);
    var idx := KeptPositions(Distinct(all), p);
    forall i, j | 0 <= i < j < |r|
      ensures FirstIndex(all, r[i]) < FirstIndex(all, r[j])
    {
      assert idx[i] < idx[j] && r[i] == Distinct(all)[idx[i]] && r[j] == Distinct(all)[idx[j]];
      assert FirstOccursBefore(Distinct(all), all, idx[i], idx[j]);
    }
  }

  /** In a valid universe, a type declared by an enumerated assembly is found
      exactly when `IsDeriveClassFrom` accepts it. */
  lemma {:induction false} FindAllItemsDeclared(u: Universe, assemblies: seq<AssemblyId>, baseType: TypeId,
                                                a: AssemblyId, t: TypeId)
    requires u.Valid() && baseType in u.types
    requires FindAllItems(u, assemblies, baseType).Success?
    requires a in assemblies && a in u.declared && t in u.declared[a]
    ensures t in FindAllItems(u, assemblies, baseType).value <==>
            IsDeriveClassFrom(u.types, Some(t), Some(baseType), false) == Success(true)
  {
    assert t in u.types;
    assert t in AllTypes(u, assemblies).value;
  }

  /** The base type itself is found when it is a concrete class declared by an
      enumerated assembly: the relation is reflexive, not strict. */
  lemma {:induction false} BaseTypeFindsItself(u: Universe, assemblies: seq<AssemblyId>, baseType: TypeId, a: AssemblyId)
    requires FindAllItems(u, assemblies, baseType).Success?
    requires a in assemblies && a in u.declared && baseType in u.declared[a]
    requires baseType in u.types && u.types[baseType].isClass && !u.types[baseType].isAbstract
    ensures baseType in FindAllItems(u, assemblies, baseType).value
  {
  }

  class BaseTypeFinder {
    const baseType: TypeId
    const allAssemblyFinder: DirectoryAssemblyFinder
    const finder: FinderBase<TypeId>   // the inherited per-instance cache

    constructor (baseType: TypeId, allAssemblyFinder: DirectoryAssemblyFinder)
      ensures this.baseType == baseType && this.allAssemblyFinder == allAssemblyFinder
      ensures fresh(finder) && finder.Valid() && finder.State() == Unpopulated() && finder.scans == 0
    {
      this.baseType := baseType;
      this.allAssemblyFinder := allAssemblyFinder;
      finder := new FinderBase();
    }

    /** What the scan hook yields now: the collaborator's `FindAll(true)`
        answer, run through `FindAllItems`. */
    ghost function ScanOutcome(fs: FileSystem, loader: Loader, u: Universe): Result<seq<TypeId>>
      reads allAssemblyFinder.cacheDict
      reads if allAssemblyFinder.path in allAssemblyFinder.cacheDict.dict
            then {allAssemblyFinder.cacheDict.dict[allAssemblyFinder.path]} else {}
    {
      match allAssemblyFinder.Answer(true, fs, loader)
      case Success(assemblies) => FindAllItems(u, assemblies, baseType)
      case Failure(e) => Failure(e)
    }

    /** The collaborator's dictionary, `d0` before the call: a scan asks the
        collaborator for `FindAll(true)`, which rescans only when its path is
        not cached; a cache hit leaves the dictionary alone. */
    twostate predicate CollaboratorStep(d0: map<string, array<AssemblyId>>, scanned: bool,
                                        fs: FileSystem, loader: Loader)
      reads allAssemblyFinder.cacheDict
      reads if allAssemblyFinder.path in allAssemblyFinder.cacheDict.dict
            then {allAssemblyFinder.cacheDict.dict[allAssemblyFinder.path]} else {}
    {
      var d := allAssemblyFinder.cacheDict.dict;
      var path := allAssemblyFinder.path;
      if scanned && path !in d0 then
        ScanStored(d0, d, path, fs, loader) && (path in d && d != d0 ==> fresh(d[path]))
      else d == d0
    }

    /** The inherited `FindAll(fromCache)` with this class's scan hook, which
        runs only when the cache cannot answer. */
    method FindAll(fromCache: bool, fs: FileSystem, loader: Loader, u: Universe) returns (r: Result<array<TypeId>>)
      requires finder.Valid()
      modifies finder, allAssemblyFinder.cacheDict
      ensures finder.Valid()
      ensures finder.State() ==
              FindAllStep(old(finder.State()), fromCache, old(ScanOutcome(fs, loader, u))).state
      ensures Delivers(r, FindAllStep(old(finder.State()), fromCache, old(ScanOutcome(fs, loader, u))).result)
      ensures finder.scans == old(finder.scans) + (if old(finder.WillScan(fromCache)) then 1 else 0)
      ensures CollaboratorStep(old(allAssemblyFinder.cacheDict.dict), old(finder.WillScan(fromCache)), fs, loader)
      ensures r.Success? ==> fresh(r.value)
    {
      var scan: Result<seq<TypeId>> := Success([]);   // not consulted on a cache hit
      if finder.WillScan(fromCache) {
        var assemblies := allAssemblyFinder.FindAll(true, fs, loader);
        match assemblies {
          case Success(found) =>
            scan := FindAllItems(u, found[..], baseType);
          case Failure(e) =>
            scan := Failure(e);
        }
      }
      r := finder.FindAll(fromCache, scan);
    }

    /** The inherited `Find(predicate, fromCache)`. */
    method Find(p: TypeId -> bool, fromCache: bool, fs: FileSystem, loader: Loader, u: Universe)
      returns (r: Result<array<TypeId>>)
      requires finder.Valid()
      modifies finder, allAssemblyFinder.cacheDict
      ensures finder.Valid()
      ensures finder.State() ==
              FindAllStep(old(finder.State()), fromCache, old(ScanOutcome(fs, loader, u))).state
      ensures Delivers(r, FilterResult(FindAllStep(old(finder.State()), fromCache,
                                                   old(ScanOutcome(fs, loader, u))).result, p))
      ensures finder.scans == old(finder.scans) + (if old(finder.WillScan(fromCache)) then 1 else 0)
      ensures CollaboratorStep(old(allAssemblyFinder.cacheDict.dict), old(finder.WillScan(fromCache)), fs, loader)
      ensures r.Success? ==> fresh(r.value)
    {
      var all := FindAll(fromCache, fs, loader, u);
      match all {
        case Failure(e) =>
          return Failure(e);
        case Success(types) =>
          var matching := ToArray(Filter(types[..], p));
          return Success(matching);
      }
    }
  }
}
