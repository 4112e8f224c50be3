/**
  Facts about lists without repeated elements and about the sizes of the sets they hold, used where
  the solvers count a `Vec` that is only pushed to after a `contains` check.
*/
module Seqs {

  predicate NoDups<T(==)>(s: seq<T>) {
    forall a, b :: 0 <= a < b < |s| ==> s[a] != s[b]
  }

  ghost function Elems<T>(s: seq<T>): set<T> {
    set x | x in s
  }

  /** A list without duplicates has as many elements as its set. */
  lemma {:induction false} DistinctCard<T>(s: seq<T>)
    requires NoDups(s)
    ensures |Elems(s)| == |s|
  {
    if s != [] {
      var n := |s| - 1;
      assert NoDups(s[..n]);
      DistinctCard(s[..n]);
      assert Elems(s) == Elems(s[..n]) + {s[n]} by {
        assert s == s[..n] + [s[n]];
      }
      assert s[n] !in Elems(s[..n]);
    }
  }

  /** A subset of a finite set has no more elements than the set. */
  lemma SubsetCard<T>(a: set<T>, b: set<T>)
    requires a <= b
    ensures |a| <= |b|
  {
    assert a * b == a;
    assert |b - a| == |b| - |a|;
  }

  /** Joining two lists without duplicates and without a common element gives a list without duplicates. */
  lemma NoDupsAppend<T>(xs: seq<T>, ys: seq<T>)
    requires NoDups(xs) && NoDups(ys)
    requires forall x :: x in xs ==> x !in ys
    ensures NoDups(xs + ys)
  {
    var s := xs + ys;
    forall a, b | 0 <= a < b < |s| ensures s[a] != s[b] {
      if b < |xs| {
        assert s[a] == xs[a] && s[b] == xs[b];
      } else if a >= |xs| {
        assert s[a] == ys[a - |xs|] && s[b] == ys[b - |xs|];
      } else {
        assert s[a] == xs[a] && s[b] == ys[b - |xs|];
        assert xs[a] in xs;
      }
    }
  }
}
