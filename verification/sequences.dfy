/** The LINQ operators the finders are built from, on sequences: `Where` is
    `Filter`, `Distinct` keeps the first occurrence of every element. */
module Sequences {

  ghost predicate NoDuplicates<T>(s: seq<T>) {
    forall i, j :: 0 <= i < j < |s| ==> s[i] != s[j]
  }

  /** The position of the first occurrence of `x` in `s`. */
  function FirstIndex<T(==)>(s: seq<T>, x: T): (k: nat)
    requires x in s
    ensures k < |s| && s[k] == x
    ensures forall i :: 0 <= i < k ==> s[i] != x
  {
    if s[0] == x then 0 else 1 + FirstIndex(s[1..], x)
  }

  /** `Enumerable.Where`: the elements of `s` satisfying `p`, in their order. */
  function Filter<T>(s: seq<T>, p: T -> bool): (r: seq<T>)
    ensures |r| <= |s|
  {
    if |s| == 0 then [] else (if p(s[0]) then [s[0]] else []) + Filter(s[1..], p)
  }

  /** One element at a time: `x` is kept by `Filter` exactly when it occurs
      and satisfies `p`. */
  lemma {:induction false} FilterHas<T>(s: seq<T>, p: T -> bool, x: T)
    ensures x in Filter(s, p) <==> x in s && p(x)
  {
    if |s| > 0 {
      FilterHas(s[1..], p, x);
      assert x in s <==> x == s[0] || x in s[1..];
    }
  }

  /** `Filter(s, p)` holds exactly the elements of `s` that satisfy `p`. */
  lemma {:induction false} FilterSpec<T>(s: seq<T>, p: T -> bool)
    ensures forall x | x in Filter(s, p) :: x in s && p(x)
    ensures forall x | x in s && p(x) :: x in Filter(s, p)
  {
    forall x | x in Filter(s, p)
      ensures x in s && p(x)
    {
      FilterHas(s, p, x);
    }
    forall x | x in s && p(x)
      ensures x in Filter(s, p)
    {
      FilterHas(s, p, x);
    }
  }

  /** `Enumerable.Distinct`: drops every element already seen, so the first
      occurrence of each element is the one kept. */
  function Distinct<T(==)>(s: seq<T>): (r: seq<T>)
    ensures |r| <= |s|
  {
    if |s| == 0 then []
    else
      var d := Distinct(s[..|s| - 1]);
      var y := s[|s| - 1];
      assert s == s[..|s| - 1] + [y];
      if y in d then d else d + [y]
  }

  /** `Distinct` leaves no duplicates and keeps exactly the elements of its
      input. */
  lemma {:induction false} DistinctSpec<T>(s: seq<T>)
    ensures NoDuplicates(Distinct(s))
    ensures forall x :: x in Distinct(s) <==> x in s
  {
    if |s| > 0 {
      var s0 := s[..|s| - 1];
      var y := s[|s| - 1];
      assert s == s0 + [y];
      DistinctSpec(s0);
    }
  }

  /** One element at a time: `x` survives `Distinct` exactly when it occurs. */
  lemma {:induction false} DistinctHas<T>(s: seq<T>, x: T)
    ensures x in Distinct(s) <==> x in s
  {
    if |s| > 0 {
      var s0 := s[..|s| - 1];
      assert s == s0 + [s[|s| - 1]];
      DistinctHas(s0, x);
    }
  }

  /** Filtering commutes with concatenation, so it keeps the relative order of
      the elements it retains. */
  lemma {:induction false} FilterConcat<T>(a: seq<T>, b: seq<T>, p: T -> bool)
    ensures Filter(a + b, p) == Filter(a, p) + Filter(b, p)
  {
    if |a| == 0 {
      assert a + b == b;
    } else {
      var head := if p(a[0]) then [a[0]] else [];
      assert (a + b)[0] == a[0] && (a + b)[1..] == a[1..] + b;
      FilterConcat(a[1..], b, p);
      calc {
        Filter(a + b, p);
        head + Filter(a[1..] + b, p);
        head + (Filter(a[1..], p) + Filter(b, p));
        (head + Filter(a[1..], p)) + Filter(b, p);
      }
    }
  }

  /** Filtering twice with the same predicate changes nothing. */
  lemma {:induction false} FilterIdempotent<T>(s: seq<T>, p: T -> bool)
    ensures Filter(Filter(s, p), p) == Filter(s, p)
  {
    if |s| > 0 {
      FilterIdempotent(s[1..], p);
      if p(s[0]) {
        var f := [s[0]] + Filter(s[1..], p);
        assert f[0] == s[0] && f[1..] == Filter(s[1..], p);
        assert Filter(f, p) == [s[0]] + Filter(f[1..], p);
      } else {
        assert Filter(s, p) == Filter(s[1..], p);
      }
    }
  }

  lemma {:induction false} FirstIndexAppend<T>(s: seq<T>, y: T, x: T)
    requires x in s
    ensures FirstIndex(s + [y], x) == FirstIndex(s, x)
  {
    var k := FirstIndex(s, x);
    var k' := FirstIndex(s + [y], x);
    assert (s + [y])[k] == x;
  }

  /** Every element of `r` occurs in `s`, and earlier elements of `r` occur
      first in `s` before later ones do. */
  ghost predicate InFirstOccurrenceOrder<T>(r: seq<T>, s: seq<T>)
  {
    forall i, j :: 0 <= i < j < |r| ==> FirstOccursBefore(r, s, i, j)
  }

  /** `r[i]` and `r[j]` both occur in `s`, and `r[i]` occurs first. */
  ghost predicate FirstOccursBefore<T>(r: seq<T>, s: seq<T>, i: nat, j: nat)
    requires i < j < |r|
  {
    r[i] in s && r[j] in s && FirstIndex(s, r[i]) < FirstIndex(s, r[j])
  }

  /** The elements `Distinct` keeps come in the order of their first
      occurrences in the input; with `NoDuplicates` and the membership
      property this determines the result completely. */
  lemma {:induction false} DistinctFirstOccurrenceOrder<T>(s: seq<T>)
    ensures InFirstOccurrenceOrder(Distinct(s), s)
  {
    if |s| > 0 {
      var s0, y := s[..|s| - 1], s[|s| - 1];
      assert s == s0 + [y];
      DistinctFirstOccurrenceOrder(s0);
      forall i, j | 0 <= i < j < |Distinct(s)|
        ensures FirstOccursBefore(Distinct(s), s, i, j)
      {
        DistinctOrderStep(s0, y, i, j);
      }
    } else {
      assert Distinct(s) == [];
    }
  }

  /** The inductive step of `DistinctFirstOccurrenceOrder`, for one pair of
      positions of `Distinct(s0 + [y])`. */
  lemma {:induction false} DistinctOrderStep<T>(s0: seq<T>, y: T, i: nat, j: nat)
    requires InFirstOccurrenceOrder(Distinct(s0), s0)
    requires i < j < |Distinct(s0 + [y])|
    ensures FirstOccursBefore(Distinct(s0 + [y]), s0 + [y], i, j)
  {
    var d, r := Distinct(s0), Distinct(s0 + [y]);
    DistinctSnoc(s0, y);
    assert i < |d| && r[i] == d[i];
    DistinctHas(s0, d[i]);
    FirstIndexAppend(s0, y, d[i]);
    if j < |d| {
      assert r[j] == d[j];
      assert FirstOccursBefore(d, s0, i, j);
      FirstIndexAppend(s0, y, d[j]);
    } else {
      assert r[j] == y && y !in s0;
      FirstIndexOfLast(s0, y);
    }
  }

  /** An element missing from `s` occurs first at the end of `s + [y]`. */
  lemma {:induction false} FirstIndexOfLast<T>(s: seq<T>, y: T)
    requires y !in s
    ensures FirstIndex(s + [y], y) == |s|
  {
    var k := FirstIndex(s + [y], y);
    assert forall i | 0 <= i < |s| :: (s + [y])[i] == s[i];
  }

  /** A sequence that already has no duplicates is its own `Distinct`. */
  lemma {:induction false} DistinctOfUnique<T>(s: seq<T>)
    requires NoDuplicates(s)
    ensures Distinct(s) == s
  {
    if |s| > 0 {
      var s0 := s[..|s| - 1];
      DistinctOfUnique(s0);
      assert s[|s| - 1] !in s0;
      assert s0 + [s[|s| - 1]] == s;
    }
  }

  /** `Where` before `Distinct` (as the derived-type scan does) equals
      `Distinct` before `Where`. */
  lemma {:induction false} DistinctFilterCommute<T>(s: seq<T>, p: T -> bool)
    ensures Distinct(Filter(s, p)) == Filter(Distinct(s), p)
  {
    if |s| > 0 {
      var s0 := s[..|s| - 1];
      var y := s[|s| - 1];
      assert s == s0 + [y];
      DistinctFilterCommute(s0, p);
      var f0 := Filter(s0, p);
      var d := Distinct(s0);
      FilterConcat(s0, [y], p);
      FilterConcat(d, [y], p);
      assert Filter([y], p) == if p(y) then [y] else [];
      DistinctSnoc(s0, y);
      if p(y) {
        assert Filter(s, p) == f0 + [y];
        DistinctSnoc(f0, y);
        FilterHas(s0, p, y);
      } else {
        assert Filter(s, p) == f0;
      }
    }
  }

  /** Appending one element: `Distinct` keeps it exactly when it is new. */
  lemma {:induction false} DistinctSnoc<T>(s: seq<T>, y: T)
    ensures Distinct(s + [y]) == if y in s then Distinct(s) else Distinct(s) + [y]
  {
    assert (s + [y])[..|s|] == s;
    DistinctHas(s, y);
  }

  /** The elements of `s` that do not occur in `a`, in their order. */
  function Unseen<T(==)>(s: seq<T>, a: seq<T>): (r: seq<T>)
    ensures |r| <= |s|
  {
    if |s| == 0 then []
    else
      var y := s[|s| - 1];
      assert s == s[..|s| - 1] + [y];
      Unseen(s[..|s| - 1], a) + (if y in a then [] else [y])
  }

  /** `Unseen(s, a)` holds exactly the elements of `s` missing from `a`. */
  lemma {:induction false} UnseenSpec<T>(s: seq<T>, a: seq<T>)
    ensures forall x :: x in Unseen(s, a) <==> x in s && x !in a
  {
    if |s| > 0 {
      var s0 := s[..|s| - 1];
      assert s == s0 + [s[|s| - 1]];
      UnseenSpec(s0, a);
    }
  }

  lemma {:induction false} UnseenSnoc<T>(s: seq<T>, y: T, a: seq<T>)
    ensures Unseen(s + [y], a) == Unseen(s, a) + (if y in a then [] else [y])
  {
    assert (s + [y])[..|s|] == s;
  }

  /** One element appended to the second part keeps `DistinctAppend`. */
  lemma {:induction false} DistinctAppendStep<T>(a: seq<T>, b0: seq<T>, y: T)
    requires Distinct(a + b0) == Distinct(a) + Unseen(Distinct(b0), a)
    ensures Distinct((a + b0) + [y]) == Distinct(a) + Unseen(Distinct(b0 + [y]), a)
  {
    var db := Distinct(b0);
    DistinctSnoc(a + b0, y);
    DistinctSnoc(b0, y);
    UnseenSnoc(db, y, a);
    var inA, inB := y in a, y in b0;
    assert y in a + b0 <==> inA || inB;
    SnocCombine(Distinct(a + b0), Distinct((a + b0) + [y]), Distinct(a),
                Unseen(db, a), Unseen(Distinct(b0 + [y]), a), Unseen(db + [y], a), y, inA, inB);
  }

  /** The sequence bookkeeping of `DistinctAppendStep`, on plain values. */
  lemma {:induction false} SnocCombine<T>(l0: seq<T>, l1: seq<T>, da: seq<T>, u: seq<T>, u1: seq<T>,
                                          uy: seq<T>, y: T, inA: bool, inB: bool)
    requires l0 == da + u
    requires l1 == if inA || inB then l0 else l0 + [y]
    requires uy == u + (if inA then [] else [y])
    requires u1 == if inB then u else uy
    ensures l1 == da + u1
  {
    if !inA && !inB {
      assert (da + u) + [y] == da + (u + [y]);
    }
  }

  /** `Distinct` of a concatenation: all distinct elements of the first part,
      then those of the second part that the first part does not contain. */
  lemma {:induction false} DistinctAppend<T>(a: seq<T>, b: seq<T>)
    ensures Distinct(a + b) == Distinct(a) + Unseen(Distinct(b), a)
  {
    if |b| == 0 {
      assert a + b == a;
    } else {
      var b0 := b[..|b| - 1];
      var y := b[|b| - 1];
      assert b == b0 + [y];
      assert a + b == (a + b0) + [y];
      DistinctAppend(a, b0);
      DistinctAppendStep(a, b0, y);
    }
  }

  /** The positions in `s` of the elements `Filter(s, p)` keeps, in order. */
  function KeptPositions<T>(s: seq<T>, p: T -> bool): (idx: seq<nat>)
    ensures |idx| <= |s|
  {
    if |s| == 0 then []
    else
      var rest := KeptPositions(s[1..], p);
      (if p(s[0]) then [0] else []) + seq(|rest|, k requires 0 <= k < |rest| => rest[k] + 1)
  }

  /** `Where` keeps relative order: its result is a subsequence of the input,
      each element taken from a position strictly after the previous one. */
  lemma {:induction false} FilterKeepsOrder<T>(s: seq<T>, p: T -> bool)
    ensures |KeptPositions(s, p)| == |Filter(s, p)|
    ensures forall k | 0 <= k < |KeptPositions(s, p)| ::
              KeptPositions(s, p)[k] < |s| && s[KeptPositions(s, p)[k]] == Filter(s, p)[k]
    ensures forall k, l | 0 <= k < l < |KeptPositions(s, p)| ::
              KeptPositions(s, p)[k] < KeptPositions(s, p)[l]
  {
    if |s| > 0 {
      FilterKeepsOrder(s[1..], p);
      var rest, fr := KeptPositions(s[1..], p), Filter(s[1..], p);
      var shifted := seq(|rest|, k requires 0 <= k < |rest| => rest[k] + 1);
      var idx, f := KeptPositions(s, p), Filter(s, p);
      var h := if p(s[0]) then 1 else 0;
      assert idx == (if p(s[0]) then [0] else []) + shifted;
      assert f == (if p(s[0]) then [s[0]] else []) + fr;
      forall k | h <= k < |idx|
        ensures idx[k] == rest[k - h] + 1 && f[k] == fr[k - h]
      {
      }
      forall k | 0 <= k < |idx|
        ensures idx[k] < |s| && s[idx[k]] == f[k]
      {
        if k >= h {
          assert s[1..][rest[k - h]] == s[rest[k - h] + 1];
        }
      }
    }
  }

  /** `ToArray`: a fresh array holding `s`. */
  method ToArray<T>(s: seq<T>) returns (a: array<T>)
    ensures fresh(a) && a[..] == s
  {
    a := new T[|s|](i requires 0 <= i < |s| => s[i]);
  }
}
