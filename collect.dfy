/** Small sequence utilities shared by both comparison tools.

    A reconciliation run classifies every base row into "no output" or
    "one output row". The classification is a `seq<Option<T>>` indexed by base
    row; the expected report is its flattening. The tools visit the rows in an
    order driven by Python set iteration, so their proofs track the set of base
    indices already reported and use `Restrict` to relate that set to the
    flattening. */
module Collect {

  datatype Option<T> = None | Some(value: T)

  /** The zero- or one-element sequence holding the value of `o`. */
  function AsSeq<T>(o: Option<T>): (r: seq<T>)
    ensures |r| <= 1
    ensures o.Some? ==> r == [o.value]
    ensures o.None? ==> r == []
  {
    if o.Some? then [o.value] else []
  }

  /** The present entries of `o`, in index order. */
  function Flatten<T>(o: seq<Option<T>>): (r: seq<T>)
    ensures |r| <= |o|
  {
    if |o| == 0 then [] else Flatten(o[..|o| - 1]) + AsSeq(o[|o| - 1])
  }

  /** The present entries of `o` whose index lies in `d`, in index order. */
  function Restrict<T>(o: seq<Option<T>>, d: set<int>): (r: seq<T>)
    ensures |r| <= |o|
  {
    if |o| == 0 then []
    else Restrict(o[..|o| - 1], d) + (if |o| - 1 in d then AsSeq(o[|o| - 1]) else [])
  }

  lemma {:induction false} RestrictNothing<T>(o: seq<Option<T>>)
    ensures Restrict(o, {}) == []
  {
    if |o| > 0 {
      RestrictNothing(o[..|o| - 1]);
    }
  }

  lemma {:induction false} RestrictBeyond<T>(o: seq<Option<T>>, d: set<int>, i: int)
    requires i < 0 || |o| <= i
    ensures Restrict(o, d + {i}) == Restrict(o, d)
  {
    if |o| > 0 {
      RestrictBeyond(o[..|o| - 1], d, i);
    }
  }

  /** Adding one more index to the reported set adds exactly that index's entry. */
  lemma {:induction false} RestrictInsert<T>(o: seq<Option<T>>, d: set<int>, i: int)
    requires 0 <= i < |o| && i !in d
    ensures multiset(Restrict(o, d + {i})) == multiset(Restrict(o, d)) + multiset(AsSeq(o[i]))
    ensures |Restrict(o, d + {i})| == |Restrict(o, d)| + |AsSeq(o[i])|
  {
    var n := |o| - 1;
    if i == n {
      RestrictBeyond(o[..n], d, i);
    } else {
      RestrictInsert(o[..n], d, i);
      assert o[..n][i] == o[i];
    }
    assert |multiset(Restrict(o, d + {i}))| == |Restrict(o, d + {i})|;
  }

  /** Once every index whose entry is present has been reported, the
      restriction is the whole flattening. */
  lemma {:induction false} RestrictCovers<T>(o: seq<Option<T>>, d: set<int>)
    requires forall i :: 0 <= i < |o| && i !in d ==> o[i].None?
    ensures Restrict(o, d) == Flatten(o)
  {
    if |o| > 0 {
      var n := |o| - 1;
      assert forall i :: 0 <= i < n ==> o[..n][i] == o[i];
      RestrictCovers(o[..n], d);
    }
  }

  /** Whatever has been reported so far is part of the flattening. */
  lemma {:induction false} RestrictWithin<T>(o: seq<Option<T>>, d: set<int>)
    ensures multiset(Restrict(o, d)) <= multiset(Flatten(o))
  {
    if |o| > 0 {
      RestrictWithin(o[..|o| - 1], d);
    }
  }

  /** `x` is in the flattening exactly when some index holds `Some(x)`. */
  lemma {:induction false} FlattenMember<T>(o: seq<Option<T>>, x: T)
    ensures x in Flatten(o) <==> exists i :: 0 <= i < |o| && o[i] == Some(x)
  {
    if |o| > 0 {
      var n := |o| - 1;
      FlattenMember(o[..n], x);
      assert forall i :: 0 <= i < n ==> o[..n][i] == o[i];
      if x in Flatten(o) && x !in Flatten(o[..n]) {
        assert o[n] == Some(x);
      }
    }
  }

  /** The indices of `o` that hold exactly `Some(x)`. */
  ghost function IndicesOf<T>(o: seq<Option<T>>, x: T): set<int>
  {
    set i | 0 <= i < |o| && o[i] == Some(x)
  }

  /** The indices of `o` that hold a value. */
  ghost function PresentIndices<T>(o: seq<Option<T>>): set<int>
  {
    set i | 0 <= i < |o| && o[i].Some?
  }

  /** The multiplicity of `x` in the flattening is the number of indices
      holding `Some(x)`: every present entry contributes one copy. */
  lemma {:induction false} FlattenMultiplicity<T>(o: seq<Option<T>>, x: T)
    ensures multiset(Flatten(o))[x] == |IndicesOf(o, x)|
  {
    if |o| > 0 {
      var n := |o| - 1;
      var p := o[..n];
      FlattenMultiplicity(p, x);
      assert multiset(Flatten(o)) == multiset(Flatten(p)) + multiset(AsSeq(o[n]));
      IndicesOfSnoc(o, x);
    } else {
      assert IndicesOf(o, x) == {};
    }
  }

  lemma IndicesOfSnoc<T>(o: seq<Option<T>>, x: T)
    requires |o| > 0
    ensures |IndicesOf(o, x)| == |IndicesOf(o[..|o| - 1], x)| + (if o[|o| - 1] == Some(x) then 1 else 0)
  {
    var n := |o| - 1;
    var p := o[..n];
    var a, b := IndicesOf(o, x), IndicesOf(p, x);
    var extra: set<int> := if o[n] == Some(x) then {n} else {};
    forall i | i in a ensures i in b + extra {
      if i < n { assert p[i] == o[i]; }
    }
    forall i | i in b + extra ensures i in a {
      if i < n { assert p[i] == o[i]; }
    }
    assert a == b + extra;
    assert n !in b;
  }

  /** The flattening has one element per present entry. */
  lemma {:induction false} FlattenLength<T>(o: seq<Option<T>>)
    ensures |Flatten(o)| == |PresentIndices(o)|
  {
    if |o| > 0 {
      var n := |o| - 1;
      var p := o[..n];
      FlattenLength(p);
      var a, b := PresentIndices(o), PresentIndices(p);
      var extra: set<int> := if o[n].Some? then {n} else {};
      forall i | i in a ensures i in b + extra {
        if i < n { assert p[i] == o[i]; }
      }
      forall i | i in b + extra ensures i in a {
        if i < n { assert p[i] == o[i]; }
      }
      assert a == b + extra;
      assert n !in b;
    } else {
      assert PresentIndices(o) == {};
    }
  }

  /** `a` is `b` with some elements left out, order kept. */
  predicate IsSubsequence<T(==)>(a: seq<T>, b: seq<T>)
    decreases |b|
  {
    if |a| == 0 then true
    else if |b| == 0 then false
    else if a[0] == b[0] then IsSubsequence(a[1..], b[1..])
    else IsSubsequence(a, b[1..])
  }

  /** Taking one more element out of the remaining part of `all` moves it to
      the handled part. */
  lemma HandleOne<T>(all: set<T>, remaining: set<T>, x: T)
    requires x in remaining && remaining <= all
    ensures all - (remaining - {x}) == (all - remaining) + {x}
  {
  }
}
