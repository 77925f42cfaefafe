# Sunspot finders and conversion helpers in Dafny

This project models the discovery-and-cache finders of Sunspot.Core and the helper extensions they rely on.

- **`FinderBase<TItem>`** is a per-instance cache. It has an `ItemsCache` list and a `Found` flag. `FindAll(fromCache)` either answers from that cache or runs the subclass's scan hook `FindAllItems` and refills the cache. `Find` is `FindAll` followed by `Where`.
- **`DirectoryAssemblyFinder`** loads the `*.dll` files and then the `*.exe` files of one directory. It removes duplicate assemblies and stores the array in a process-wide dictionary keyed by the path.
- **`BaseTypeFinderBase<TBaseType>`** is the scan hook of a type finder. It asks an assembly finder with `fromCache = true`, flattens `GetTypes()` of every assembly, keeps the types that satisfy `IsDeriveClassFrom<TBaseType>()`, and removes duplicates.
- **`TypeExtension`** supplies the derive test (`IsDeriveClassFrom`, `IsBaseOn`, `IsGenericAssignableFrom`) over an explicit graph of runtime types. It also supplies the date and boolean helpers `IsWeekend`, `IsWeekday`, `ToUniqueString` and `ToLower`.
- **`ObjectExtension`** supplies `ToDBC` (full-width to half-width text), `IsBetween`, and the null, text and byte-array branches of `ToInt` and `ToLong`.

The modules are:

| module | file |
|---|---|
| `Common` (errors, `Result`, `Option`) | `common.dfy` |
| `Sequences` (order-preserving `Filter`, first-occurrence `Distinct`) | `sequences.dfy` |
| `Finders` | `finder_base.dfy` |
| `AssemblyFinders` | `directory_assembly_finder.dfy` |
| `BaseTypeFinders` | `base_type_finder.dfy` |
| `TypeExtension` | `type_extension.dfy` |
| `DecimalText` (digit strings) | `decimal_text.dfy` |
| `ObjectExtension` | `object_extension.dfy` |

Exceptions become `Failure` values: `ArgumentNull`, `ArgumentNotGeneric`, `DirectoryNotFound`, `LoadFailed` and `TypeLoadFailed`.

The abstract scan hook `FindAllItems` is passed to `FinderBase.FindAll` as the outcome it would produce. A ghost counter `scans` records every time the hook runs, so "no scan on a cache hit" is a statement about that counter. `BaseTypeFinder` composes a `FinderBase<TypeId>` and computes the scan only when the cache cannot answer.

The static `CacheDict` is one `AssemblyCache` object shared by every `DirectoryAssemblyFinder`. It maps paths to arrays, so the lack of a defensive copy is modelled with real aliasing.

The filesystem, `Assembly.LoadFrom` and `Assembly.GetTypes()` are inputs:
- `FileSystem` maps a path to its `*.dll` and `*.exe` listings.
- `Loader` maps a file to its assembly id. A file missing from `Loader` fails to load.
- `Universe.declared` maps an assembly to its types. An assembly missing from it fails `GetTypes()`.

The type graph records, per type:
- the `IsClass`, `IsAbstract`, `IsInterface`, `IsGenericType` and `IsGenericTypeDefinition` flags;
- its generic type definition;
- its base type;
- its interfaces.

Type ids follow creation order, so every base chain is finite.

Where the source differs from what its names suggest, the model follows the source:
- `DirectoryAssemblyFinder.FindAll` returns the cached array itself, not a copy. A caller writing into it changes what every later cache hit returns (`CachedArrayIsShared`).
- `FinderBase.FindAll` returns the scan's own array after a scan. On a hit it returns a copy of the cache. Either way, writing into the result cannot reach the cache (`SnapshotIsolation`).
- The derive relation is reflexive: `IsAssignableFrom` holds for the type itself. A concrete base type is therefore among the types its own finder returns (`BaseTypeFindsItself`). It is not a strict-subclass relation.

## Model

| member | source | states |
|---|---|---|
| Finders.FindAllStep | Sunspot.Core/Reflection/FinderBase.cs:20-35 | One `FindAll` call as a transition. `Found` never goes from true to false. A successful call leaves `Found` set and returns exactly the cache contents. |
| Finders.CacheHitChangesNothing | Sunspot.Core/Reflection/FinderBase.cs:24-27 | With `fromCache` and `Found`, no scan runs, the state is unchanged and the result is the cached items. |
| Finders.ScanReplacesCache | Sunspot.Core/Reflection/FinderBase.cs:29-33 | When a scan runs and succeeds, the cache becomes the scan result element for element, `Found` becomes true, and that result is returned. A scan hook that throws leaves both fields untouched. |
| Finders.FromCacheOnFreshFinder | Sunspot.Core/Reflection/FinderBase.cs:24-33 | While `Found` is false, `FindAll(true)` behaves exactly like `FindAll(false)`. |
| Finders.FindAllKeepsInvariant | Sunspot.Core/Reflection/FinderBase.cs:13-13 | `Found` is never reset, and an Unpopulated finder holds no items. |
| Finders.RepeatedCacheHitsAgree | Sunspot.Core/Reflection/FinderBase.cs:24-27 | After a successful `FindAll`, two more `FindAll(true)` calls scan nothing and return the same items, whatever a scan would now yield. |
| Finders.FilterResult | Sunspot.Core/Reflection/FinderBase.cs:15-18 | `Find` keeps exactly the returned items that satisfy the predicate, and propagates a failure unchanged. |
| Finders.FinderBase.constructor | Sunspot.Core/Reflection/FinderBase.cs:11-13 | A new finder is Unpopulated with an empty cache and has run no scan. |
| Finders.FinderBase.FindAll | Sunspot.Core/Reflection/FinderBase.cs:20-35 | The new state and the returned items are those of `FindAllStep`. The scan counter grows by one exactly when the cache cannot answer. The returned array is fresh, never the cache storage. |
| Finders.FinderBase.Find | Sunspot.Core/Reflection/FinderBase.cs:15-18 | Same state change as `FindAll`. Returns `FindAll`'s items filtered by the predicate, in order. |
| Finders.SnapshotIsolation | Sunspot.Core/Reflection/FinderBase.cs:26-33 | Writing into the array `FindAll` returned does not change what the next `FindAll(true)` returns. |
| AssemblyFinders.LoadAll | Sunspot.Core/Reflection/DirectoryAssemblyFinder.cs:31-33 | A successful load gives one assembly per file. A failure is always a load failure. |
| AssemblyFinders.LoadAllMeaning | Sunspot.Core/Reflection/DirectoryAssemblyFinder.cs:31-33 | Loading succeeds iff every file loads, and the result is then the per-file assemblies in order. Otherwise the error names a listed file that does not load. |
| AssemblyFinders.ScanDirectory | Sunspot.Core/Reflection/DirectoryAssemblyFinder.cs:31-33 | A missing directory fails with `DirectoryNotFound`. Any other failure is a file that does not load. |
| AssemblyFinders.ScanDirectoryMeaning | Sunspot.Core/Reflection/DirectoryAssemblyFinder.cs:31-33 | For an existing directory the scan succeeds iff every `*.dll` and `*.exe` file loads. The result has no duplicates, holds the assembly of every file, and holds nothing else. |
| AssemblyFinders.DistinctHoldsLoaded | Sunspot.Core/Reflection/DirectoryAssemblyFinder.cs:33-33 | `Distinct` of the per-file assemblies holds each of them once and nothing else. |
| AssemblyFinders.LoadAllConcat | Sunspot.Core/Reflection/DirectoryAssemblyFinder.cs:31-32 | Loading the dll list followed by the exe list is loading each list and concatenating the results. |
| AssemblyFinders.DllsBeforeExes | Sunspot.Core/Reflection/DirectoryAssemblyFinder.cs:31-33 | The scan result is the distinct dll assemblies in listing order, followed by the distinct exe assemblies that no dll produced. |
| AssemblyFinders.DuplicateLoadCollapses | Sunspot.Core/Reflection/DirectoryAssemblyFinder.cs:33-33 | Two files loading as the same assembly contribute it once, at its first position. |
| AssemblyFinders.AssemblyCache.constructor | Sunspot.Core/Reflection/DirectoryAssemblyFinder.cs:9-10 | The process-wide dictionary starts empty. |
| AssemblyFinders.DirectoryAssemblyFinder.constructor | Sunspot.Core/Reflection/DirectoryAssemblyFinder.cs:14-17 | Construction only records the path, and shares the dictionary. |
| AssemblyFinders.DirectoryAssemblyFinder.FindAll | Sunspot.Core/Reflection/DirectoryAssemblyFinder.cs:24-37 | A hit with `fromCache` returns the stored array itself and changes nothing. Otherwise the scan result is returned in a fresh array that overwrites only this path's entry, so the last writer wins. A failing scan leaves the dictionary untouched. |
| AssemblyFinders.DirectoryAssemblyFinder.Find | Sunspot.Core/Reflection/DirectoryAssemblyFinder.cs:19-22 | Returns the `FindAll` answer filtered by the predicate, in order. A hit with `fromCache` leaves the dictionary as it was. Otherwise a successful scan stores a fresh array holding exactly the scan result under this path and changes no other entry, and a failing scan leaves the dictionary as it was. |
| AssemblyFinders.SharedAcrossInstances | Sunspot.Core/Reflection/DirectoryAssemblyFinder.cs:26-28 | A second finder for the same path gets, from `FindAll(true)`, the very array the first finder's scan stored. |
| AssemblyFinders.CachedArrayIsShared | Sunspot.Core/Reflection/DirectoryAssemblyFinder.cs:28-28 | A write into the array a cache hit returned is visible in the next cache hit. |
| BaseTypeFinders.AllTypes | Sunspot.Core/Reflection/BaseTypeFinderBase.cs:17-19 | Flattening succeeds iff every assembly's types load. The result holds every declared type of every assembly and nothing else. A failure names an assembly whose types cannot be loaded. |
| BaseTypeFinders.FindAllItems | Sunspot.Core/Reflection/BaseTypeFinderBase.cs:15-22 | Soundness: every result type is enumerated and derives. Completeness: every enumerated type that derives is returned. There are no duplicates. Every result is a non-abstract class based on the base type. |
| BaseTypeFinders.FindAllItemsOrder | Sunspot.Core/Reflection/BaseTypeFinderBase.cs:17-21 | Results appear in the first-occurrence order of the assembly-major, type-minor enumeration. |
| BaseTypeFinders.FindAllItemsDeclared | Sunspot.Core/Reflection/BaseTypeFinderBase.cs:17-21 | In a universe whose declared types are all in the type graph, a type declared by an enumerated assembly is found iff `IsDeriveClassFrom` accepts it. |
| BaseTypeFinders.BaseTypeFindsItself | Sunspot.Core/Reflection/BaseTypeFinderBase.cs:20-20 | A concrete base class declared by an enumerated assembly is found by its own finder. |
| BaseTypeFinders.BaseTypeFinder.constructor | Sunspot.Core/Reflection/BaseTypeFinderBase.cs:10-13 | Records the collaborator. The inherited cache is fresh and Unpopulated. |
| BaseTypeFinders.BaseTypeFinder.FindAll | Sunspot.Core/Reflection/BaseTypeFinderBase.cs:15-22 | Follows `FindAllStep`, with the scan being `FindAllItems` over the collaborator's `FindAll(true)` answer. It scans exactly when the cache cannot answer. The assembly dictionary is untouched unless this call scans and the path has no entry yet; then it gains exactly the directory's scan result under that path, or stays as it was when the scan fails. |
| BaseTypeFinders.BaseTypeFinder.Find | Sunspot.Core/Reflection/FinderBase.cs:15-18 | Same state change as `FindAll`: the same cache transition, the same scan count and the same change to the assembly dictionary. The result is `FindAll`'s items filtered by the predicate. |
| TypeExtension.BaseChain | Sunspot.Core/Helper/ClassExtensions/TypeExtension.cs:133-133 | Every type on the `BaseType` walk is a known type created before the start type, so the walk ends. |
| TypeExtension.SubclassIsStrictOrder | Sunspot.Core/Helper/ClassExtensions/TypeExtension.cs:137-137 | `IsSubclassOf` is irreflexive and transitive. |
| TypeExtension.DefinitionOf | Sunspot.Core/Helper/ClassExtensions/TypeExtension.cs:135-136 | Replacing a generic type by its definition yields a known type no newer than it. |
| TypeExtension.GenericChain | Sunspot.Core/Helper/ClassExtensions/TypeExtension.cs:133-139 | The inner loop inspects the definition of the start type first, and only known types. |
| TypeExtension.Candidates | Sunspot.Core/Helper/ClassExtensions/TypeExtension.cs:125-130 | The outer loop starts with the type itself, followed by its interfaces only when the generic type is an interface. |
| TypeExtension.ChainMatchesStep | Sunspot.Core/Helper/ClassExtensions/TypeExtension.cs:133-139 | One pass of the inner loop: the chain matches iff the current definition matches, or else the chain from its base type matches. |
| TypeExtension.IsGenericAssignableFrom | Sunspot.Core/Helper/ClassExtensions/TypeExtension.cs:119-142 | A null `genericType`, then a null `type`, then a non-generic `genericType` are errors. Otherwise the nested loop returns true iff some candidate's chain holds `genericType` or a subclass of it. |
| TypeExtension.CandidateMatches | Sunspot.Core/Helper/ClassExtensions/TypeExtension.cs:131-138 | A candidate whose chain matches makes the generic test true. |
| TypeExtension.NoCandidateMatches | Sunspot.Core/Helper/ClassExtensions/TypeExtension.cs:131-141 | When no candidate's chain matches, the generic test is false. |
| TypeExtension.GenericDefinitionMatchesItsTypes | Sunspot.Core/Helper/ClassExtensions/TypeExtension.cs:135-138 | A generic type definition is assignable from itself and from every type constructed from it. |
| TypeExtension.GenericMatchFollowsBase | Sunspot.Core/Helper/ClassExtensions/TypeExtension.cs:133-139 | For a class generic type and a non-generic, non-matching class, the answer is the answer for its base class. |
| TypeExtension.IsBaseOn | Sunspot.Core/Helper/ClassExtensions/TypeExtension.cs:146-146 | Every type is based on itself, and on every non-generic-definition type it is a subclass of. |
| TypeExtension.IsBaseOnAgreesWithMethod | Sunspot.Core/Helper/ClassExtensions/TypeExtension.cs:146-146 | For a generic type definition, `IsBaseOn` uses the generic test and never reaches its not-generic exception. |
| TypeExtension.IsDeriveClassFrom | Sunspot.Core/Helper/ClassExtensions/TypeExtension.cs:53-58 | A null `type`, then a null `baseType`, fail first. With both present the answer is defined, and true only for a non-abstract class, with `canAbstract` false, based on `baseType`. |
| TypeExtension.CanAbstractRejectsEverything | Sunspot.Core/Helper/ClassExtensions/TypeExtension.cs:57-57 | With `canAbstract` set, no type derives. |
| TypeExtension.ConcreteSubclassDerives | Sunspot.Core/Helper/ClassExtensions/TypeExtension.cs:51-58 | A concrete class derives from every non-generic-definition base class it inherits from. |
| TypeExtension.ToLower | Sunspot.Core/Helper/ClassExtensions/TypeExtension.cs:60-60 | The result is "true" or "false", and it is "true" exactly for `true`. |
| TypeExtension.IsWeekend | Sunspot.Core/Helper/ClassExtensions/TypeExtension.cs:62-66 | True iff the day is Saturday or Sunday. |
| TypeExtension.IsWeekday | Sunspot.Core/Helper/ClassExtensions/TypeExtension.cs:68-75 | True iff the day is Monday to Friday. |
| TypeExtension.WeekendXorWeekday | Sunspot.Core/Helper/ClassExtensions/TypeExtension.cs:62-75 | Exactly one of `IsWeekend` and `IsWeekday` holds for every date. |
| TypeExtension.SecondsOfDay | Sunspot.Core/Helper/ClassExtensions/TypeExtension.cs:79-79 | For a valid time of day the seconds component lies in 0..86399. |
| TypeExtension.SecondsOfDayDecomposes | Sunspot.Core/Helper/ClassExtensions/TypeExtension.cs:79-79 | The seconds component determines hour, minute and second. |
| TypeExtension.ToUniqueString | Sunspot.Core/Helper/ClassExtensions/TypeExtension.cs:77-82 | The output is all digits: the two-digit year, then the day of the year and the seconds unpadded, then three millisecond digits exactly when `milsec`. |
| TypeExtension.ToUniqueStringCollides | Sunspot.Core/Helper/ClassExtensions/TypeExtension.cs:80-80 | Two different dates of the same year give the same string. |
| TypeExtension.ToUniqueStringFixedWidth | Sunspot.Core/Helper/ClassExtensions/TypeExtension.cs:77-82 | The fixed-width key is all digits, 10 long, or 13 with `milsec`. |
| TypeExtension.FixedWidthFields | Sunspot.Core/Helper/ClassExtensions/TypeExtension.cs:77-82 | Each field of the fixed-width key sits at a fixed position: year digits 0-1, day 2-4, seconds 5-9, milliseconds 10-12. |
| TypeExtension.FixedWidthIsUnique | Sunspot.Core/Helper/ClassExtensions/TypeExtension.cs:77-82 | Equal fixed-width keys of valid dates have the same year modulo 100, day, time and, with `milsec`, millisecond. |
| DecimalText.DecimalRoundTrip | Sunspot.Core/Helper/ClassExtensions/TypeExtension.cs:80-80 | The unpadded decimal text of `n` reads back as `n`. |
| DecimalText.DigitRoundTrip | Sunspot.Core/Helper/ClassExtensions/TypeExtension.cs:80-80 | A digit character reads back as its digit. |
| DecimalText.PaddedRoundTrip | Sunspot.Core/Helper/ClassExtensions/TypeExtension.cs:80-81 | The zero-padded text of a number that fits reads back as the number. |
| DecimalText.PaddedInjective | Sunspot.Core/Helper/ClassExtensions/TypeExtension.cs:80-81 | Fixed-width (`yy`, `fff`) digit strings of numbers that fit are distinct. |
| ObjectExtension.HalfWidth | Sunspot.Core/Helper/ClassExtensions/ObjectExtension.cs:523-526 | U+3000 becomes a space. U+FF01..U+FF5E become visible ASCII. Every other character is unchanged, and no result lies in the converted ranges. |
| ObjectExtension.HalfWidthInvertsFullWidth | Sunspot.Core/Helper/ClassExtensions/ObjectExtension.cs:525-526 | Subtracting 0xFEE0 is a bijection from U+FF01..U+FF5E onto `'!'..'~'`. |
| ObjectExtension.Dbc | Sunspot.Core/Helper/ClassExtensions/ObjectExtension.cs:518-530 | `ToDBC` keeps the length, leaves no full-width character, and keeps every other character in place. |
| ObjectExtension.ToDbc | Sunspot.Core/Helper/ClassExtensions/ObjectExtension.cs:518-530 | The in-place loop over the character array returns exactly `Dbc(str)`. |
| ObjectExtension.DbcIdempotent | Sunspot.Core/Helper/ClassExtensions/ObjectExtension.cs:521-527 | Converting twice equals converting once. |
| ObjectExtension.DbcConcat | Sunspot.Core/Helper/ClassExtensions/ObjectExtension.cs:521-527 | The conversion distributes over concatenation. |
| ObjectExtension.DbcOfWiden | Sunspot.Core/Helper/ClassExtensions/ObjectExtension.cs:525-526 | Converting the full-width spelling of an ASCII text gives the text back. |
| ObjectExtension.IsBetween | Sunspot.Core/Helper/ClassExtensions/ObjectExtension.cs:114-124 | An accepted value compares at or above `start` and at or below `end`; a value strictly between them is accepted; an accepted value equal to an endpoint needs that endpoint's flag. |
| ObjectExtension.IsBetweenOnIntegers | Sunspot.Core/Helper/ClassExtensions/ObjectExtension.cs:114-124 | On integers `IsBetween` holds iff `v` is above `start` (or equal, with `leftEqual`) and below `end` (or equal, with `rightEqual`). |
| ObjectExtension.IsBetweenFlagsWiden | Sunspot.Core/Helper/ClassExtensions/ObjectExtension.cs:122-123 | For any comparison, a value inside the open interval is inside for every flag setting. |
| ObjectExtension.IsBetweenEndpoints | Sunspot.Core/Helper/ClassExtensions/ObjectExtension.cs:122-123 | Each endpoint is inside exactly when its flag is set. |
| ObjectExtension.CompareInt | Sunspot.Core/Helper/ClassExtensions/ObjectExtension.cs:122-123 | `CompareTo` on integers has the sign of the difference. |
| ObjectExtension.Unsigned | Sunspot.Core/Helper/ClassExtensions/ObjectExtension.cs:439-446 | The little-endian value of `k` bytes lies below 256^k. |
| ObjectExtension.Signed | Sunspot.Core/Helper/ClassExtensions/ObjectExtension.cs:437-448 | The two's-complement value of `k` bytes lies in the signed range of `8k` bits, and is negative iff the top bit is set. |
| ObjectExtension.UnsignedOfLittleEndian | Sunspot.Core/Helper/ClassExtensions/ObjectExtension.cs:433-449 | Decoding the little-endian bytes of a number that fits gives the number. |
| ObjectExtension.LittleEndianOfUnsigned | Sunspot.Core/Helper/ClassExtensions/ObjectExtension.cs:433-449 | Encoding the value of a byte sequence gives the bytes. |
| ObjectExtension.SignedOfGetBytes | Sunspot.Core/Helper/ClassExtensions/ObjectExtension.cs:437-448 | The signed reading of the bytes of `v` is `v`. |
| ObjectExtension.UnsignedZeroExtend | Sunspot.Core/Helper/ClassExtensions/ObjectExtension.cs:439-446 | Appending a zero most-significant byte keeps the unsigned value. |
| ObjectExtension.TrimStart | Sunspot.Core/Helper/ClassExtensions/ObjectExtension.cs:416-416 | Drops exactly the leading white space. |
| ObjectExtension.TrimEnd | Sunspot.Core/Helper/ClassExtensions/ObjectExtension.cs:416-416 | Drops exactly the trailing white space. |
| ObjectExtension.Trim | Sunspot.Core/Helper/ClassExtensions/ObjectExtension.cs:416-416 | The result neither starts nor ends with white space. |
| ObjectExtension.TrimKeepsTrimmed | Sunspot.Core/Helper/ClassExtensions/ObjectExtension.cs:416-416 | A text without white space at its ends is unchanged. |
| ObjectExtension.RemoveCommas | Sunspot.Core/Helper/ClassExtensions/ObjectExtension.cs:416-416 | No comma remains, and every other character does. |
| ObjectExtension.ParseInteger | Sunspot.Core/Helper/ClassExtensions/ObjectExtension.cs:418-418 | Only a non-empty text can denote an integer. |
| ObjectExtension.ParseDecimalText | Sunspot.Core/Helper/ClassExtensions/ObjectExtension.cs:418-418 | The decimal text of `n` denotes `n`. |
| ObjectExtension.TryParseInt32 | Sunspot.Core/Helper/ClassExtensions/ObjectExtension.cs:418-418 | `int.TryParse` succeeds iff the text denotes an integer in the 32-bit range, and then yields it. |
| ObjectExtension.TryParseInt64 | Sunspot.Core/Helper/ClassExtensions/ObjectExtension.cs:472-472 | The corrected parse of the Findings row: `long.TryParse` succeeds iff the text denotes an integer in the 64-bit range, and then yields it. |
| ObjectExtension.CleanedDigits | Sunspot.Core/Helper/ClassExtensions/ObjectExtension.cs:416-416 | A digit string passes comma removal, `ToDBC` and `Trim` unchanged. |
| ObjectExtension.CleanedWidenedDigits | Sunspot.Core/Helper/ClassExtensions/ObjectExtension.cs:414-418 | A full-width digit string cleans to its ASCII digits. |
| ObjectExtension.ReadInt32 | Sunspot.Core/Helper/ClassExtensions/ObjectExtension.cs:416-418 | The string branch succeeds iff the cleaned text denotes an integer in the 32-bit range, and then yields it. |
| ObjectExtension.ReadInt64 | Sunspot.Core/Helper/ClassExtensions/ObjectExtension.cs:470-472 | The corrected string branch of the Findings row: the same with the 64-bit range. |
| ObjectExtension.ToInt | Sunspot.Core/Helper/ClassExtensions/ObjectExtension.cs:408-460 | Null and DBNull give the default. A text result other than the default is what the cleaned text denotes. Empty and over-long byte arrays give the default. One byte gives 0..255, two bytes a signed 16-bit value, and three bytes the zero-extended unsigned 24-bit value. |
| ObjectExtension.ToLongNonText | Sunspot.Core/Helper/ClassExtensions/ObjectExtension.cs:462-516 | Null, DBNull and byte arrays of an unsupported length give the default. Three bytes give the unsigned 24-bit value, and eight bytes the signed 64-bit value. |
| ObjectExtension.ToLong | Sunspot.Core/Helper/ClassExtensions/ObjectExtension.cs:468-472 | A text result other than the default lies in the 32-bit range and is what the cleaned text denotes. |
| ObjectExtension.ToLongIntended | Sunspot.Core/Helper/ClassExtensions/ObjectExtension.cs:462-516 | The same as `ToLong`, except that a text result may use the whole 64-bit range. |
| ObjectExtension.ToLongWidensToInt | Sunspot.Core/Helper/ClassExtensions/ObjectExtension.cs:487-502 | Apart from other objects and 8-byte arrays, `ToLong` answers exactly as `ToInt`. |
| ObjectExtension.BytesRoundTrip | Sunspot.Core/Helper/ClassExtensions/ObjectExtension.cs:433-449 | The bytes `BitConverter.GetBytes` gives for a `short` or an `int` read back through `ToInt`, and for a `long` through `ToLong`. |
| ObjectExtension.DecimalTextRoundTrip | Sunspot.Core/Helper/ClassExtensions/ObjectExtension.cs:414-418 | The decimal text of a non-negative `int` reads back through `ToInt`, also when spelt with full-width digits. |
| ObjectExtension.CommasIgnored | Sunspot.Core/Helper/ClassExtensions/ObjectExtension.cs:416-416 | A comma anywhere in the text does not change the result. |
| ObjectExtension.RemoveCommasSkipsComma | Sunspot.Core/Helper/ClassExtensions/ObjectExtension.cs:416-416 | Removing commas from a text with one inserted comma gives the same as without it. |
| ObjectExtension.ToLongMissesLargeText | Sunspot.Core/Helper/ClassExtensions/ObjectExtension.cs:472-472 | As written, `ToLong` gives the default for the text of every number from 2^31 to 2^63 - 1. |
| ObjectExtension.ToLongIntendedReadsText | Sunspot.Core/Helper/ClassExtensions/ObjectExtension.cs:462-516 | The corrected `ToLong` reads back the text of every non-negative `long`. |
| Sequences.Filter | Sunspot.Core/Reflection/FinderBase.cs:17-17 | `Where` never lengthens its input. |
| Sequences.FilterHas | Sunspot.Core/Reflection/FinderBase.cs:17-17 | An element is kept by `Where` iff it occurs and satisfies the predicate. |
| Sequences.FilterSpec | Sunspot.Core/Reflection/FinderBase.cs:17-17 | `Where` keeps exactly the elements satisfying the predicate. |
| Sequences.FilterConcat | Sunspot.Core/Reflection/FinderBase.cs:17-17 | `Where` distributes over concatenation. |
| Sequences.FilterIdempotent | Sunspot.Core/Reflection/FinderBase.cs:17-17 | Filtering twice with the same predicate equals filtering once. |
| Sequences.FilterKeepsOrder | Sunspot.Core/Reflection/FinderBase.cs:17-17 | `Where`'s result is a subsequence of its input: its elements are taken from strictly increasing positions, one position per element. |
| Sequences.Distinct | Sunspot.Core/Reflection/DirectoryAssemblyFinder.cs:33-33 | `Distinct` never lengthens its input. |
| Sequences.DistinctSpec | Sunspot.Core/Reflection/DirectoryAssemblyFinder.cs:33-33 | `Distinct` leaves no duplicates and keeps exactly the elements of its input. |
| Sequences.DistinctHas | Sunspot.Core/Reflection/DirectoryAssemblyFinder.cs:33-33 | An element survives `Distinct` iff it occurs in the input. |
| Sequences.DistinctSnoc | Sunspot.Core/Reflection/DirectoryAssemblyFinder.cs:33-33 | Appending an element adds it to the `Distinct` result exactly when it is new. |
| Sequences.DistinctOfUnique | Sunspot.Core/Reflection/DirectoryAssemblyFinder.cs:33-33 | A sequence without duplicates is its own `Distinct`. |
| Sequences.DistinctFirstOccurrenceOrder | Sunspot.Core/Reflection/DirectoryAssemblyFinder.cs:33-33 | `Distinct` lists elements in the order of their first occurrence. |
| Sequences.DistinctOrderStep | Sunspot.Core/Reflection/DirectoryAssemblyFinder.cs:33-33 | Appending one element keeps the first-occurrence order of `Distinct`. |
| Sequences.FirstIndexOfLast | Sunspot.Core/Reflection/DirectoryAssemblyFinder.cs:33-33 | A new element appended to a sequence occurs first at its end. |
| Sequences.DistinctFilterCommute | Sunspot.Core/Reflection/BaseTypeFinderBase.cs:20-20 | Filtering then removing duplicates equals removing duplicates then filtering. |
| Sequences.DistinctAppend | Sunspot.Core/Reflection/DirectoryAssemblyFinder.cs:31-33 | `Distinct(a + b)` is `Distinct(a)` followed by `Unseen(Distinct(b), a)`, the distinct elements of `b` not in `a`, in order. |
| Sequences.UnseenSpec | Sunspot.Core/Reflection/DirectoryAssemblyFinder.cs:31-33 | `Unseen(s, a)` holds exactly the elements of `s` missing from `a`. |
| Sequences.UnseenSnoc | Sunspot.Core/Reflection/DirectoryAssemblyFinder.cs:31-33 | Appending to `s` appends to `Unseen(s, a)` exactly when the element is missing from `a`. |
| Sequences.ToArray | Sunspot.Core/Reflection/FinderBase.cs:26-26 | `ToArray` returns a fresh array holding the sequence. |

## Left out

- Locking and concurrency: the `lock` in `FinderBase.FindAll` and the thread safety of the concurrent dictionary. Each `FindAll` is one atomic method.
- The filesystem, `Directory.GetFiles` patterns, `Assembly.LoadFrom` and `Assembly.GetTypes()` are inputs. Their failures are single error values.
- Runtime reflection is reduced to the explicit type graph: `Type.IsAssignableFrom` is modelled without generic variance, arrays, pointers or `Nullable<T>` rules.
- Check.NotNull is not part of this model. Its null checks are modelled as the `ArgumentNull` failures it raises.
- The interface-only `IFinder`, `IAssemblyFinder`, `ITypeFinder` and `IAllAssemblyFinder` declarations and the EF Core files carry no behaviour.
- The reflection, expression-tree, attribute, serialization and cloning helpers of `ObjectExtension` and `TypeExtension` are thin wrappers over the .NET runtime.
- `ToDouble`, `ToBoolean`, and the `DateTime` branches of `ToInt` and `ToLong` are left out. They depend on floating point and on the runtime's calendar. The `DateTime` branch of `ToLong` casts the `double` milliseconds since 1970 to `int`; the result of that cast is unspecified when the value is out of the 32-bit range.
- Other objects: `Convert.ToInt32` and `Convert.ToInt64` on other objects are opaque. Their outcome is carried by the value itself.
- Finders.FinderBase.FindAll: a scan hook that returns null is not modelled (no modelled hook does). In the source that call sets `Found` and clears the cache before `AddRange(null)` throws.
- Finders.FinderBase.Find: predicates are total functions here. In the source a null or throwing predicate fails inside `Where`, after `FindAll` has already changed the state.
- BaseTypeFinders.BaseTypeFinder: the collaborator is a `DirectoryAssemblyFinder`, a specialisation of the source's `IAllAssemblyFinder` field; other implementations of that interface are not modelled.
- ObjectExtension.Signed: `BitConverter.GetBytes` and `BitConverter.ToIntNN` are read as on a little-endian machine (`ObjectExtension.GetBytes` too). The big-endian byte order is not modelled.
- ObjectExtension.ParseInteger: `int.TryParse` is modelled for the invariant culture only, with "+" and "-" as signs and ASCII digits. Trailing NUL characters, which the runtime parser tolerates, are not modelled.
- ObjectExtension.ToDbc: strings are sequences of Unicode scalar values, not UTF-16 code units. The conversion ranges lie inside the Basic Multilingual Plane, so surrogate pairs are unaffected either way.
- The calendar (`DayOfYear`, `DayOfWeek` for a given date) is an input, and `DateTime.ToString` culture settings are not modelled.
- TypeExtension.ToLower: `bool.ToString()` is "True"/"False" in every culture, so only its lower-cased form is modelled.

## Findings

| source | as written | input that shows it | evidently intended | confidence | as-written member | corrected member |
|---|---|---|---|---|---|---|
| Sunspot.Core/Helper/ClassExtensions/TypeExtension.cs:80 | `ToUniqueString` prints the day of the year and the seconds of the day without padding, so the fields run together | 2024-01-01 00:00:11 and 2024-01-11 00:00:01 both give "24111" | A key that identifies the moment, with fixed-width fields (day as 3 digits, seconds as 5) | high; not executed | TypeExtension.ToUniqueStringCollides | TypeExtension.FixedWidthIsUnique |
| Sunspot.Core/Helper/ClassExtensions/ObjectExtension.cs:472 | The string branch of `ToLong` parses with `int.TryParse` | `ToLong("3000000000")` returns the default 0, while the 8-byte branch reads any `long` | Parse with `long.TryParse`, so every 64-bit text is read | medium; not executed | ObjectExtension.ToLongMissesLargeText | ObjectExtension.ToLongIntendedReadsText |
