/** `FinderBase<TItem>`: the per-instance cache every finder inherits. The
    subclass's scan hook `FindAllItems` is represented by the outcome it would
    produce (`scan`), and the ghost counter `scans` records how often the hook
    actually ran, so "no scan on a cache hit" is a statement about the counter. */
module Finders {
  import opened Common
  import opened Sequences

  /** The two fields of a finder: the list `ItemsCache` and the flag `Found`. */
  datatype CacheState<T> = CacheState(items: seq<T>, found: bool)

  /** The fresh finder: Unpopulated, empty cache. */
  function Unpopulated<T>(): CacheState<T> {
    CacheState([], false)
  }

  /** Both fields are written only together, after a scan, so an Unpopulated
      finder never holds items. */
  predicate ValidCache<T>(s: CacheState<T>) {
    !s.found ==> s.items == []
  }

  /** `FindAll(fromCache)` runs the scan hook unless it may answer from a
      populated cache. */
  predicate ScanRuns<T>(s: CacheState<T>, fromCache: bool) {
    !(fromCache && s.found)
  }

  /** The state after a `FindAll` call and what the call returns. */
  datatype Step<T> = Step(state: CacheState<T>, result: Result<seq<T>>)

  /** One `FindAll(fromCache)` call as a transition of the two-state machine.
      A failing scan throws before `Found` and `ItemsCache` are written. */
  function FindAllStep<T>(s: CacheState<T>, fromCache: bool, scan: Result<seq<T>>): (o: Step<T>)
    ensures s.found ==> o.state.found
    ensures o.result.Success? ==> o.state.found && o.result.value == o.state.items
  {
    if !ScanRuns(s, fromCache) then Step(s, Success(s.items))
    else match scan
      case Success(items) => Step(CacheState(items, true), scan)
      case Failure(_) => Step(s, scan)
  }

  /** `Find(predicate, fromCache)`: what `FindAll` returns, passed through `Where`. */
  function FilterResult<T>(res: Result<seq<T>>, p: T -> bool): (r: Result<seq<T>>)
    ensures r.Success? <==> res.Success?
    ensures r.Success? ==> forall x | x in r.value :: p(x) && x in res.value
    ensures r.Success? ==> forall x | x in res.value && p(x) :: x in r.value
    ensures r.Failure? ==> r == res
  {
    match res
    case Success(items) =>
      FilterSpec(items, p);
      Success(Filter(items, p))
    case Failure(e) => Failure(e)
  }

  /** An array result carries exactly the expected items (or the same error). */
  ghost predicate Delivers<T>(r: Result<array<T>>, expected: Result<seq<T>>)
    reads if r.Success? then {r.value} else {}
  {
    match r
    case Success(a) => expected == Success(a[..])
    case Failure(e) => expected == Failure(e)
  }

  /** A cache hit returns the cached items, runs no scan and changes nothing. */
  lemma {:induction false} CacheHitChangesNothing<T>(s: CacheState<T>, scan: Result<seq<T>>)
    requires s.found
    ensures !ScanRuns(s, true)
    ensures FindAllStep(s, true, scan) == Step(s, Success(s.items))
  {
  }

  /** A scan replaces the cache by the scan result element for element and
      returns that result; a failing scan leaves both fields untouched. */
  lemma {:induction false} ScanReplacesCache<T>(s: CacheState<T>, fromCache: bool, scan: Result<seq<T>>)
    requires ScanRuns(s, fromCache)
    ensures scan.Success? ==> FindAllStep(s, fromCache, scan) == Step(CacheState(scan.value, true), scan)
    ensures scan.Failure? ==> FindAllStep(s, fromCache, scan) == Step(s, scan)
  {
  }

  /** On an Unpopulated finder `FindAll(true)` is `FindAll(false)`. */
  lemma {:induction false} FromCacheOnFreshFinder<T>(s: CacheState<T>, scan: Result<seq<T>>)
    requires !s.found
    ensures FindAllStep(s, true, scan) == FindAllStep(s, false, scan)
  {
  }

  /** `Found` is never reset and the invariant of the two fields is kept. */
  lemma {:induction false} FindAllKeepsInvariant<T>(s: CacheState<T>, fromCache: bool, scan: Result<seq<T>>)
    requires ValidCache(s)
    ensures ValidCache(FindAllStep(s, fromCache, scan).state)
    ensures s.found ==> FindAllStep(s, fromCache, scan).state.found
  {
  }

  /** After any successful `FindAll`, further `FindAll(true)` calls return the
      same items and never run the scan, whatever the scan would now yield. */
  lemma {:induction false} RepeatedCacheHitsAgree<T>(s: CacheState<T>, fromCache: bool,
                                  scan1: Result<seq<T>>, scan2: Result<seq<T>>, scan3: Result<seq<T>>)
    requires FindAllStep(s, fromCache, scan1).result.Success?
    ensures var o1 := FindAllStep(s, fromCache, scan1);
            var o2 := FindAllStep(o1.state, true, scan2);
            var o3 := FindAllStep(o2.state, true, scan3);
            !ScanRuns(o1.state, true) && !ScanRuns(o2.state, true) &&
            o2 == Step(o1.state, o1.result) && o3 == o2
  {
  }

  class FinderBase<T> {
    var itemsCache: seq<T>
    var found: bool
    ghost var scans: nat   // how many times the scan hook ran

    function State(): CacheState<T>
      reads this
    {
      CacheState(itemsCache, found)
    }

    ghost predicate Valid()
      reads this
    {
      ValidCache(State())
    }

    /** Construction performs no scan. */
    constructor ()
      ensures Valid() && State() == Unpopulated() && scans == 0
    {
      itemsCache := [];
      found := false;
      scans := 0;
    }

    /** Whether `FindAll(fromCache)` would run the scan hook now. */
    predicate WillScan(fromCache: bool)
      reads this
    {
      ScanRuns(State(), fromCache)
    }

    /** `FindAll(fromCache)`. A cache hit returns a copy of the cache
        (`ItemsCache.ToArray()`); a scan returns the scan's own fresh array after
        setting `Found` and refilling the cache with `Clear` and `AddRange`. */
    method FindAll(fromCache: bool, scan: Result<seq<T>>) returns (r: Result<array<T>>)
      requires Valid()
      modifies this
      ensures Valid()
      ensures State() == FindAllStep(old(State()), fromCache, scan).state
      ensures scans == old(scans) + (if ScanRuns(old(State()), fromCache) then 1 else 0)
      ensures Delivers(r, FindAllStep(old(State()), fromCache, scan).result)
      ensures r.Success? ==> fresh(r.value)
    {
      if fromCache && found {
        var copy := ToArray(itemsCache);
        return Success(copy);
      }
      scans := scans + 1;
      match scan {
        case Failure(e) =>
          return Failure(e);
        case Success(allItems) =>
          var items := ToArray(allItems);
          found := true;
          itemsCache := [];
          itemsCache := itemsCache + items[..];
          return Success(items);
      }
    }

    /** `Find(predicate, fromCache)`: `FindAll(fromCache)` followed by `Where`. */
    method Find(p: T -> bool, fromCache: bool, scan: Result<seq<T>>) returns (r: Result<array<T>>)
      requires Valid()
      modifies this
      ensures Valid()
      ensures State() == FindAllStep(old(State()), fromCache, scan).state
      ensures scans == old(scans) + (if ScanRuns(old(State()), fromCache) then 1 else 0)
      ensures Delivers(r, FilterResult(FindAllStep(old(State()), fromCache, scan).result, p))
      ensures r.Success? ==> fresh(r.value)
    {
      var all := FindAll(fromCache, scan);
      match all {
        case Failure(e) =>
          return Failure(e);
        case Success(items) =>
          var matching := ToArray(Filter(items[..], p));
          return Success(matching);
      }
    }
  }

  /** Writing into the array a `FindAll` returned does not reach the cache: the
      next `FindAll(true)` still returns what the first call returned. */
  method SnapshotIsolation<T>(f: FinderBase<T>, fromCache: bool, scan: Result<seq<T>>,
                              x: T, later: Result<seq<T>>)
    returns (first: Result<array<T>>, second: Result<array<T>>)
    requires f.Valid()
    modifies f
    ensures f.Valid()
    ensures first.Success? ==>
              second.Success? && Delivers(second, FindAllStep(old(f.State()), fromCache, scan).result)
  {
    first := f.FindAll(fromCache, scan);
    if first.Success? && first.value.Length > 0 {
      first.value[0] := x;
    }
    second := f.FindAll(true, later);
  }
}
