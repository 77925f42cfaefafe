/** `TypeExtension`: the type-relation tests the derived-type finder filters
    with, over an explicit graph of runtime types, and the small date and
    boolean helpers of the same class. */
module TypeExtension {
  import opened Common
  import opened DecimalText

  /** What reflection reports about one runtime type. `genericDefinition` is
      `GetGenericTypeDefinition()` (meaningful when `isGenericType`),
      `interfaces` is `GetInterfaces()`: every interface the type implements. */
  datatype TypeInfo = TypeInfo(
    isClass: bool,
    isAbstract: bool,
    isInterface: bool,
    isGenericType: bool,
    isGenericTypeDefinition: bool,
    genericDefinition: TypeId,
    baseType: Option<TypeId>,
    interfaces: seq<TypeId>)

  /** The runtime's guarantees about its types. Type ids follow creation order:
      a base class and a generic definition exist before the types built from
      them, so every base chain is finite. */
  ghost predicate WellFormed(g: map<TypeId, TypeInfo>) {
    forall t | t in g ::
      && (g[t].baseType.Some? ==> g[t].baseType.value in g && g[t].baseType.value < t)
      && (g[t].isGenericType ==> g[t].genericDefinition in g && g[t].genericDefinition <= t)
      && (g[t].isGenericTypeDefinition ==> g[t].isGenericType && g[t].genericDefinition == t)
      && (forall i | i in g[t].interfaces :: i in g)
  }

  type TypeGraph = g: map<TypeId, TypeInfo> | WellFormed(g) witness map[]

  /** The strict ancestors of `t`: `t.BaseType`, its `BaseType`, and so on. */
  function BaseChain(g: TypeGraph, t: TypeId): (r: seq<TypeId>)
    requires t in g
    ensures forall x | x in r :: x in g && x < t
    decreases t
  {
    match g[t].baseType
    case None => []
    case Some(b) => [b] + BaseChain(g, b)
  }

  /** `Type.IsSubclassOf`: `c` is a strict ancestor of `t`. */
  predicate IsSubclassOf(g: TypeGraph, t: TypeId, c: TypeId)
    requires t in g
  {
    c in BaseChain(g, t)
  }

  /** `IsSubclassOf` is a strict order: irreflexive and transitive. */
  lemma {:induction false} SubclassIsStrictOrder(g: TypeGraph, t: TypeId, b: TypeId, c: TypeId)
    requires t in g && b in g
    ensures !IsSubclassOf(g, t, t)
    ensures IsSubclassOf(g, t, b) && IsSubclassOf(g, b, c) ==> IsSubclassOf(g, t, c)
    decreases t
  {
    if IsSubclassOf(g, t, b) && IsSubclassOf(g, b, c) {
      var p := g[t].baseType.value;
      if b != p {
        SubclassIsStrictOrder(g, p, b, c);
      }
    }
  }

  /** `Type.IsAssignableFrom` without variance: the same type, a base class or
      an implemented interface. */
  predicate IsAssignableFrom(g: TypeGraph, baseType: TypeId, t: TypeId)
    requires t in g
  {
    t == baseType || IsSubclassOf(g, t, baseType) || baseType in g[t].interfaces
  }

  /** `t`, replaced by its generic type definition when it is generic. */
  function DefinitionOf(g: TypeGraph, t: TypeId): (d: TypeId)
    requires t in g
    ensures d in g && d <= t
  {
    if g[t].isGenericType then g[t].genericDefinition else t
  }

  /** The types the inner loop of `IsGenericAssignableFrom` inspects, starting
      from `t`: each one is replaced by its generic definition before it is
      tested, and the walk continues from that definition's base type. */
  function GenericChain(g: TypeGraph, t: TypeId): (r: seq<TypeId>)
    requires t in g
    ensures |r| >= 1 && r[0] == DefinitionOf(g, t)
    ensures forall x | x in r :: x in g && x <= t
    decreases t
  {
    var d := DefinitionOf(g, t);
    [d] + match g[d].baseType
          case None => []
          case Some(b) => GenericChain(g, b)
  }

  /** The list the outer loop walks: `t`, and its interfaces when the generic
      type is an interface. */
  function Candidates(g: TypeGraph, genericType: TypeId, t: TypeId): (r: seq<TypeId>)
    requires genericType in g && t in g
    ensures |r| >= 1 && r[0] == t
    ensures forall c | c in r :: c in g
  {
    [t] + if g[genericType].isInterface then g[t].interfaces else []
  }

  predicate ChainMatches(g: TypeGraph, c: TypeId, genericType: TypeId)
    requires c in g
  {
    exists x | x in GenericChain(g, c) :: IsSubclassOf(g, x, genericType) || x == genericType
  }

  /** One step of the inner loop: the chain from `c` matches when `c`'s
      definition matches, or else when the chain from that definition's base
      type does. */
  lemma {:induction false} ChainMatchesStep(g: TypeGraph, c: TypeId, genericType: TypeId)
    requires c in g
    ensures var d := DefinitionOf(g, c);
            ChainMatches(g, c, genericType) ==
            (IsSubclassOf(g, d, genericType) || d == genericType ||
             (g[d].baseType.Some? && ChainMatches(g, g[d].baseType.value, genericType)))
  {
    var d := DefinitionOf(g, c);
    var chain := GenericChain(g, c);
    if g[d].baseType.Some? {
      var b := g[d].baseType.value;
      assert chain == [d] + GenericChain(g, b);
      if ChainMatches(g, b, genericType) {
        var x :| x in GenericChain(g, b) && (IsSubclassOf(g, x, genericType) || x == genericType);
        assert x in chain;
      }
    } else {
      assert chain == [d];
    }
  }

  /** What `IsGenericAssignableFrom` decides for a generic `genericType`: some
      type on the walked chain of some candidate is `genericType` or a subclass
      of it. */
  predicate GenericAssignableFrom(g: TypeGraph, genericType: TypeId, t: TypeId)
    requires genericType in g && t in g
  {
    exists c | c in Candidates(g, genericType, t) :: ChainMatches(g, c, genericType)
  }

  /** `IsGenericAssignableFrom`: null arguments and a non-generic
      `genericType` are errors; otherwise the nested loop searches the chains
      and stops at the first match. */
  method IsGenericAssignableFrom(g: TypeGraph, genericType: Option<TypeId>, t: Option<TypeId>)
    returns (r: Result<bool>)
    requires genericType.Some? ==> genericType.value in g
    requires t.Some? ==> t.value in g
    ensures genericType.None? ==> r == Failure(ArgumentNull("genericType"))
    ensures genericType.Some? && t.None? ==> r == Failure(ArgumentNull("type"))
    ensures genericType.Some? && t.Some? && !g[genericType.value].isGenericType ==>
              r == Failure(ArgumentNotGeneric)
    ensures genericType.Some? && t.Some? && g[genericType.value].isGenericType ==>
              r == Success(GenericAssignableFrom(g, genericType.value, t.value))
  {
    if genericType.None? {
      return Failure(ArgumentNull("genericType"));
    }
    if t.None? {
      return Failure(ArgumentNull("type"));
    }
    var gen := genericType.value;
    if !g[gen].isGenericType {
      return Failure(ArgumentNotGeneric);
    }
    var typeList := [t.value];
    if g[gen].isInterface {
      typeList := typeList + g[t.value].interfaces;
    }
    assert typeList == Candidates(g, gen, t.value);
    var i := 0;
    while i < |typeList|
      invariant 0 <= i <= |typeList|
      invariant forall k | 0 <= k < i :: !ChainMatches(g, typeList[k], gen)
    {
      var c := typeList[i];
      var current := Some(c);
      while current.Some?
        invariant current.Some? ==> current.value in g
        invariant ChainMatches(g, c, gen) == (current.Some? && ChainMatches(g, current.value, gen))
        decreases if current.Some? then current.value + 1 else 0
      {
        var x := current.value;
        ChainMatchesStep(g, x, gen);
        if g[x].isGenericType {
          x := g[x].genericDefinition;
        }
        if IsSubclassOf(g, x, gen) || x == gen {
          CandidateMatches(g, gen, t.value, i);
          return Success(true);
        }
        current := g[x].baseType;
      }
      i := i + 1;
    }
    NoCandidateMatches(g, gen, t.value);
    return Success(false);
  }

  /** A matching candidate makes the answer true. */
  lemma {:induction false} CandidateMatches(g: TypeGraph, genericType: TypeId, t: TypeId, i: nat)
    requires genericType in g && t in g
    requires i < |Candidates(g, genericType, t)|
    requires ChainMatches(g, Candidates(g, genericType, t)[i], genericType)
    ensures GenericAssignableFrom(g, genericType, t)
  {
    assert Candidates(g, genericType, t)[i] in Candidates(g, genericType, t);
  }

  /** With no matching candidate the answer is false. */
  lemma {:induction false} NoCandidateMatches(g: TypeGraph, genericType: TypeId, t: TypeId)
    requires genericType in g && t in g
    requires forall k | 0 <= k < |Candidates(g, genericType, t)| ::
               !ChainMatches(g, Candidates(g, genericType, t)[k], genericType)
    ensures !GenericAssignableFrom(g, genericType, t)
  {
    var cs := Candidates(g, genericType, t);
    forall c | c in cs
      ensures !ChainMatches(g, c, genericType)
    {
      var k :| 0 <= k < |cs| && cs[k] == c;
    }
  }

  /** A generic type definition is assignable from itself, and from every
      type constructed from it. */
  lemma {:induction false} GenericDefinitionMatchesItsTypes(g: TypeGraph, genericType: TypeId, t: TypeId)
    requires genericType in g && t in g
    requires g[genericType].isGenericTypeDefinition
    requires t == genericType || (g[t].isGenericType && g[t].genericDefinition == genericType)
    ensures GenericAssignableFrom(g, genericType, t)
  {
    var chain := GenericChain(g, t);
    assert chain[0] == genericType && genericType in chain;
    assert ChainMatches(g, t, genericType);
    assert t in Candidates(g, genericType, t);
  }

  /** For a class generic type, a non-generic class matches exactly when its
      base class matches: the walk simply moves on to the base. */
  lemma {:induction false} GenericMatchFollowsBase(g: TypeGraph, genericType: TypeId, t: TypeId)
    requires genericType in g && t in g
    requires !g[genericType].isInterface && !g[t].isGenericType
    requires t != genericType && !IsSubclassOf(g, t, genericType)
    requires g[t].baseType.Some?
    ensures GenericAssignableFrom(g, genericType, t) ==
            GenericAssignableFrom(g, genericType, g[t].baseType.value)
  {
    var b := g[t].baseType.value;
    assert Candidates(g, genericType, t) == [t];
    assert Candidates(g, genericType, b) == [b];
    assert GenericChain(g, t) == [t] + GenericChain(g, b);
    if ChainMatches(g, t, genericType) {
      var x :| x in GenericChain(g, t) && (IsSubclassOf(g, x, genericType) || x == genericType);
      assert x in GenericChain(g, b);
    }
    if ChainMatches(g, b, genericType) {
      var x :| x in GenericChain(g, b) && (IsSubclassOf(g, x, genericType) || x == genericType);
      assert x in GenericChain(g, t);
    }
    assert GenericAssignableFrom(g, genericType, t) == ChainMatches(g, t, genericType);
    assert GenericAssignableFrom(g, genericType, b) == ChainMatches(g, b, genericType);
  }

  /** `IsBaseOn`: generic type definitions are matched by
      `IsGenericAssignableFrom`, every other base type by `IsAssignableFrom`.
      Every type is based on itself, and on every base class that is not a
      generic type definition. */
  predicate IsBaseOn(g: TypeGraph, t: TypeId, baseType: TypeId): (r: bool)
    requires t in g && baseType in g
    ensures t == baseType ==> r
    ensures !g[baseType].isGenericTypeDefinition && IsSubclassOf(g, t, baseType) ==> r
  {
    if g[baseType].isGenericTypeDefinition then
      if t == baseType then GenericDefinitionMatchesItsTypes(g, baseType, t); true
      else GenericAssignableFrom(g, baseType, t)
    else IsAssignableFrom(g, baseType, t)
  }

  /** `IsBaseOn` for a generic definition never reaches the exception of
      `IsGenericAssignableFrom`: a definition is a generic type. */
  lemma {:induction false} IsBaseOnAgreesWithMethod(g: TypeGraph, t: TypeId, baseType: TypeId)
    requires t in g && baseType in g && g[baseType].isGenericTypeDefinition
    ensures g[baseType].isGenericType
    ensures IsBaseOn(g, t, baseType) == GenericAssignableFrom(g, baseType, t)
  {
    if t == baseType {
      GenericDefinitionMatchesItsTypes(g, baseType, t);
    }
  }

  /** `IsDeriveClassFrom(type, baseType, canAbstract)`: both arguments are
      checked for null first; then the type must be a class, `canAbstract` must
      be false, the type must not be abstract, and it must be based on
      `baseType`. */
  function IsDeriveClassFrom(g: TypeGraph, t: Option<TypeId>, baseType: Option<TypeId>, canAbstract: bool)
    : (r: Result<bool>)
    requires t.Some? ==> t.value in g
    requires baseType.Some? ==> baseType.value in g
    ensures t.None? ==> r == Failure(ArgumentNull("type"))
    ensures t.Some? && baseType.None? ==> r == Failure(ArgumentNull("baseType"))
    ensures t.Some? && baseType.Some? ==> r.Success?
    ensures r == Success(true) ==>
              g[t.value].isClass && !g[t.value].isAbstract && !canAbstract &&
              IsBaseOn(g, t.value, baseType.value)
  {
    if t.None? then Failure(ArgumentNull("type"))
    else if baseType.None? then Failure(ArgumentNull("baseType"))
    else
      var info := g[t.value];
      Success(info.isClass && !canAbstract && !info.isAbstract && IsBaseOn(g, t.value, baseType.value))
  }

  /** With `canAbstract = true` no type ever qualifies. */
  lemma {:induction false} CanAbstractRejectsEverything(g: TypeGraph, t: TypeId, baseType: TypeId)
    requires t in g && baseType in g
    ensures IsDeriveClassFrom(g, Some(t), Some(baseType), true) == Success(false)
  {
  }

  /** A concrete class qualifies for every base class it inherits from. */
  lemma {:induction false} ConcreteSubclassDerives(g: TypeGraph, t: TypeId, baseType: TypeId)
    requires t in g && baseType in g
    requires g[t].isClass && !g[t].isAbstract && !g[baseType].isGenericTypeDefinition
    requires IsSubclassOf(g, t, baseType)
    ensures IsDeriveClassFrom(g, Some(t), Some(baseType), false) == Success(true)
  {
  }

  /** `bool.ToString().ToLower()`. */
  function ToLower(value: bool): (r: string)
    ensures r == "true" || r == "false"
    ensures (r == "true") == value
  {
    if value then "true" else "false"
  }

  datatype DayOfWeek = Sunday | Monday | Tuesday | Wednesday | Thursday | Friday | Saturday

  /** The fields of a `DateTime` the helpers read; the calendar computation of
      `DayOfYear` and `DayOfWeek` belongs to the runtime and is an input. */
  datatype DateTime = DateTime(year: nat, dayOfYear: nat, dayOfWeek: DayOfWeek,
                               hour: nat, minute: nat, second: nat, millisecond: nat)

  predicate ValidDateTime(d: DateTime) {
    1 <= d.year <= 9999 && 1 <= d.dayOfYear <= 366 &&
    d.hour < 24 && d.minute < 60 && d.second < 60 && d.millisecond < 1000
  }

  function IsWeekend(d: DateTime): (r: bool)
    ensures r <==> d.dayOfWeek == Saturday || d.dayOfWeek == Sunday
  {
    d.dayOfWeek in [Saturday, Sunday]
  }

  function IsWeekday(d: DateTime): (r: bool)
    ensures r <==> d.dayOfWeek == Monday || d.dayOfWeek == Tuesday || d.dayOfWeek == Wednesday ||
                   d.dayOfWeek == Thursday || d.dayOfWeek == Friday
  {
    d.dayOfWeek in [Monday, Tuesday, Wednesday, Thursday, Friday]
  }

  /** Every day is either a weekend day or a weekday, never both. */
  lemma {:induction false} WeekendXorWeekday(d: DateTime)
    ensures IsWeekend(d) != IsWeekday(d)
  {
  }

  /** The seconds component of `ToUniqueString`: seconds since midnight. */
  function SecondsOfDay(d: DateTime): (r: nat)
    ensures ValidDateTime(d) ==> r < 86400
  {
    d.hour * 3600 + d.minute * 60 + d.second
  }

  /** The seconds since midnight determine hour, minute and second. */
  lemma {:induction false} SecondsOfDayDecomposes(d: DateTime)
    requires ValidDateTime(d)
    ensures SecondsOfDay(d) / 3600 == d.hour
    ensures SecondsOfDay(d) % 3600 / 60 == d.minute
    ensures SecondsOfDay(d) % 60 == d.second
  {
    var s := SecondsOfDay(d);
    var r := d.minute * 60 + d.second;
    assert r < 3600;
    assert s == d.hour * 3600 + r;
    assert s / 3600 == d.hour && s % 3600 == r;
    assert r / 60 == d.minute && r % 60 == d.second;
    assert s == (d.hour * 60 + d.minute) * 60 + d.second;
  }

  /** `ToUniqueString(milsec)` as written: `yy`, then the day of the year and
      the seconds of the day unpadded, then `fff` when `milsec`. */
  function ToUniqueString(d: DateTime, milsec: bool): (r: string)
    ensures AllDigits(r)
    ensures |r| == 2 + |Decimal(d.dayOfYear)| + |Decimal(SecondsOfDay(d))| + (if milsec then 3 else 0)
    ensures r[..2] == Padded(d.year % 100, 2)
    ensures milsec ==> r[|r| - 3..] == Padded(d.millisecond, 3)
  {
    var str := Padded(d.year % 100, 2) + Decimal(d.dayOfYear) + Decimal(SecondsOfDay(d));
    if milsec then str + Padded(d.millisecond, 3) else str
  }

  /** The unpadded fields make the string ambiguous: in any year, 00:00:11 on
      day 1 and 00:00:01 on day 11 (for example 2024-01-01 and 2024-01-11)
      both give the digits `yy` followed by "111". */
  lemma {:induction false} ToUniqueStringCollides(d1: DateTime, d2: DateTime, milsec: bool)
    requires ValidDateTime(d1) && ValidDateTime(d2) && d1.year == d2.year
    requires d1.dayOfYear == 1 && d1.hour == 0 && d1.minute == 0 && d1.second == 11
    requires d2.dayOfYear == 11 && d2.hour == 0 && d2.minute == 0 && d2.second == 1
    requires d1.millisecond == d2.millisecond
    ensures d1 != d2
    ensures ToUniqueString(d1, milsec) == ToUniqueString(d2, milsec)
  {
    assert DigitChar(1) == '1';
    assert Decimal(11) == Decimal(1) + "1";
    assert Decimal(1) + Decimal(11) == Decimal(11) + Decimal(1);
  }

  /** The same key with fixed-width fields: day of the year as three digits
      and seconds of the day as five. */
  function ToUniqueStringFixedWidth(d: DateTime, milsec: bool): (r: string)
    ensures AllDigits(r)
    ensures |r| == if milsec then 13 else 10
  {
    var str := Padded(d.year % 100, 2) + Padded(d.dayOfYear, 3) + Padded(SecondsOfDay(d), 5);
    if milsec then str + Padded(d.millisecond, 3) else str
  }

  /** Where each field sits in a fixed-width key. */
  lemma {:induction false} FixedWidthFields(d: DateTime, milsec: bool)
    requires ValidDateTime(d)
    ensures var s := ToUniqueStringFixedWidth(d, milsec);
            && s[..2] == Padded(d.year % 100, 2)
            && s[2..5] == Padded(d.dayOfYear, 3)
            && s[5..10] == Padded(SecondsOfDay(d), 5)
            && (milsec ==> s[10..] == Padded(d.millisecond, 3))
  {
    var y, n, t := Padded(d.year % 100, 2), Padded(d.dayOfYear, 3), Padded(SecondsOfDay(d), 5);
    var str := y + n + t;
    assert str[..2] == y && str[2..5] == n && str[5..10] == t;
    if milsec {
      var s := str + Padded(d.millisecond, 3);
      assert s[..10] == str;
      assert s[..2] == y && s[2..5] == n && s[5..10] == t;
    }
  }

  /** Fixed-width keys are unique: equal keys of valid dates agree on the
      two-digit year, the day, the time of day and, with `milsec`, the
      millisecond. */
  lemma {:induction false} FixedWidthIsUnique(d1: DateTime, d2: DateTime, milsec: bool)
    requires ValidDateTime(d1) && ValidDateTime(d2)
    requires ToUniqueStringFixedWidth(d1, milsec) == ToUniqueStringFixedWidth(d2, milsec)
    ensures d1.year % 100 == d2.year % 100 && d1.dayOfYear == d2.dayOfYear
    ensures d1.hour == d2.hour && d1.minute == d2.minute && d1.second == d2.second
    ensures milsec ==> d1.millisecond == d2.millisecond
  {
    FixedWidthFields(d1, milsec);
    FixedWidthFields(d2, milsec);
    assert Pow10(2) == 100 && Pow10(3) == 1000 && Pow10(5) == 100000;
    PaddedInjective(d1.year % 100, d2.year % 100, 2);
    PaddedInjective(d1.dayOfYear, d2.dayOfYear, 3);
    PaddedInjective(SecondsOfDay(d1), SecondsOfDay(d2), 5);
    SecondsOfDayDecomposes(d1);
    SecondsOfDayDecomposes(d2);
    if milsec {
      PaddedInjective(d1.millisecond, d2.millisecond, 3);
    }
  }
}
