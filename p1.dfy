/**
  Day 1 (p1/src/main.rs): the distance between two lists of location ids, and their similarity.
*/
module P1 {

  predicate Sorted(s: seq<int>) {
    forall i, j :: 0 <= i < j < |s| ==> s[i] <= s[j]
  }

  /** `x` put into the sorted sequence `s` before the first element that is not smaller. */
  function Insert(x: int, s: seq<int>): (r: seq<int>)
    requires Sorted(s)
    ensures |r| == |s| + 1
    ensures r[0] == (if s == [] || x <= s[0] then x else s[0])
    ensures Sorted(r) && multiset(r) == multiset(s) + multiset{x}
  {
    if s == [] || x <= s[0] then [x] + s
    else
      var t := Insert(x, s[1..]);
      assert s == [s[0]] + s[1..];
      assert s[0] <= t[0];
      [s[0]] + t
  }

  /**
    `Vec::sort` on integers. How the library sorts is not part of this model: any algorithm
    gives the one sorted permutation (SortedUnique), and this insertion sort is one.
  */
  function Sort(s: seq<int>): (r: seq<int>)
    ensures |r| == |s|
    ensures Sorted(r) && multiset(r) == multiset(s)
  {
    if s == [] then []
    else
      assert s == [s[0]] + s[1..];
      Insert(s[0], Sort(s[1..]))
  }

  /** The first element of a sorted sequence is below all of its elements. */
  lemma SortedHead(a: seq<int>, v: int)
    requires Sorted(a) && v in multiset(a)
    ensures a[0] <= v
  {
    var i :| 0 <= i < |a| && a[i] == v;
  }

  /** The tail of a sorted sequence is sorted and holds the other elements. */
  lemma SortedTail(a: seq<int>)
    requires Sorted(a) && a != []
    ensures Sorted(a[1..]) && a == [a[0]] + a[1..]
    ensures multiset(a[1..]) == multiset(a) - multiset{a[0]}
  {
    assert a == [a[0]] + a[1..];
  }

  /** Two sorted sequences with the same elements are equal. */
  lemma {:induction false} SortedUnique(a: seq<int>, b: seq<int>)
    requires Sorted(a) && Sorted(b) && multiset(a) == multiset(b)
    ensures a == b
  {
    if a == [] {
      assert |multiset(b)| == 0;
    } else {
      SortedHeads(a, b);
      SortedTail(a);
      SortedTail(b);
      SortedUnique(a[1..], b[1..]);
    }
  }

  /** Two sorted sequences with the same elements start with the same element. */
  lemma SortedHeads(a: seq<int>, b: seq<int>)
    requires Sorted(a) && Sorted(b) && multiset(a) == multiset(b) && a != []
    ensures b != [] && a[0] == b[0]
  {
    assert a[0] in multiset(a);
    assert b[0] in multiset(b);
    SortedHead(a, b[0]);
    SortedHead(b, a[0]);
  }

  function Abs(n: int): nat {
    if n < 0 then -n else n
  }

  /** The sum of `|l[i] - r[i]|` over the indices of `l`. */
  function Distance(l: seq<int>, r: seq<int>): (d: int)
    requires |l| <= |r|
    ensures d >= 0
  {
    if l == [] then 0 else Distance(l[..|l| - 1], r) + Abs(l[|l| - 1] - r[|l| - 1])
  }

  /**
    `solution_one`: sort both lists and add up the distances between the items paired by
    position. Indexing `right` by a position of `left` panics when `right` is shorter.
  */
  method SolutionOne(left: seq<int>, right: seq<int>) returns (result: int)
    requires |left| <= |right|
    ensures result == Distance(Sort(left), Sort(right))
    ensures result >= 0
  {
    var sortedLeft := Sort(left);
    var sortedRight := Sort(right);
    result := SumDistances(sortedLeft, sortedRight);
  }

  /** The loop of `solution_one`: the distances between the items paired by position, added up. */
  method SumDistances(sortedLeft: seq<int>, sortedRight: seq<int>) returns (result: int)
    requires |sortedLeft| <= |sortedRight|
    ensures result == Distance(sortedLeft, sortedRight)
  {
    result := 0;
    for i := 0 to |sortedLeft|
      invariant result == Distance(sortedLeft[..i], sortedRight)
    {
      var dist := sortedLeft[i] - sortedRight[i];
      if dist < 0 {
        result := result - dist;
      } else {
        result := result + dist;
      }
      assert sortedLeft[..i + 1][..i] == sortedLeft[..i];
    }
    assert sortedLeft[..|sortedLeft|] == sortedLeft;
  }

  /** The total distance does not depend on the order in which either list is given. */
  lemma DistancePermutation(l: seq<int>, r: seq<int>, l': seq<int>, r': seq<int>)
    requires multiset(l) == multiset(l') && multiset(r) == multiset(r')
    requires |l| <= |r|
    ensures |Sort(l')| <= |Sort(r')|
    ensures Distance(Sort(l), Sort(r)) == Distance(Sort(l'), Sort(r'))
  {
    SortedUnique(Sort(l), Sort(l'));
    SortedUnique(Sort(r), Sort(r'));
  }

  lemma {:induction false} DistanceSelf(s: seq<int>)
    ensures Distance(s, s) == 0
  {
    if s != [] {
      var p := s[..|s| - 1];
      DistanceSelfPrefix(p, s);
    }
  }

  lemma {:induction false} DistanceSelfPrefix(p: seq<int>, s: seq<int>)
    requires p <= s
    ensures Distance(p, s) == 0
  {
    if p != [] {
      DistanceSelfPrefix(p[..|p| - 1], s);
    }
  }

  /** Two lists with the same elements are at distance 0. */
  lemma DistanceSameElements(l: seq<int>, r: seq<int>)
    requires multiset(l) == multiset(r)
    ensures |l| == |r|
    ensures Distance(Sort(l), Sort(r)) == 0
  {
    assert |multiset(l)| == |multiset(r)|;
    SortedUnique(Sort(l), Sort(r));
    DistanceSelf(Sort(l));
  }

  /** The sum, over the items `n` of `l`, of `n` times the number of times `n` occurs in `r`. */
  function Similarity(l: seq<int>, r: seq<int>): int {
    if l == [] then 0
    else
      var n := l[|l| - 1];
      Similarity(l[..|l| - 1], r) + n * multiset(r)[n]
  }

  /**
    `solution_two`: count the items of `right` in a table, then add up each item of `left`
    times its count (an item missing from the table adds nothing).
  */
  method SolutionTwo(left: seq<int>, right: seq<int>) returns (result: int)
    ensures result == Similarity(left, right)
  {
    result := 0;
    var rightMap: map<int, int> := map[];
    for i := 0 to |right|
      invariant forall n :: n in rightMap <==> n in multiset(right[..i])
      invariant forall n :: n in rightMap ==> rightMap[n] == multiset(right[..i])[n]
    {
      var num := right[i];
      var count := if num in rightMap then rightMap[num] else 0;
      rightMap := rightMap[num := count + 1];
      assert right[..i + 1] == right[..i] + [num];
    }
    assert right[..|right|] == right;
    for i := 0 to |left|
      invariant result == Similarity(left[..i], right)
    {
      var num := left[i];
      if num in rightMap {
        result := result + num * rightMap[num];
      }
      assert left[..i + 1][..i] == left[..i];
    }
    assert left[..|left|] == left;
  }

  /** Appending `y` adds one occurrence of `y` and no other. */
  lemma CountAppend(s: seq<int>, y: int, n: int)
    ensures multiset(s + [y])[n] == multiset(s)[n] + (if n == y then 1 else 0)
  {
    assert multiset(s + [y]) == multiset(s) + multiset{y};
  }

  lemma MulSucc(x: int, a: int)
    ensures x * (a + 1) == x * a + x
  {
  }

  lemma {:induction false} SimilarityAppendRight(l: seq<int>, r: seq<int>, y: int)
    ensures Similarity(l, r + [y]) == Similarity(l, r) + y * multiset(l)[y]
  {
    if l != [] {
      var p, n := l[..|l| - 1], l[|l| - 1];
      SimilarityAppendRight(p, r, y);
      assert l == p + [n];
      CountAppend(p, n, y);
      CountAppend(r, y, n);
      if n == y {
        MulSucc(n, multiset(r)[n]);
        MulSucc(y, multiset(p)[y]);
      }
    }
  }

  /** An empty right list gives a score of 0. */
  lemma {:induction false} SimilarityEmptyRight(l: seq<int>)
    ensures Similarity(l, []) == 0
  {
    if l != [] {
      SimilarityEmptyRight(l[..|l| - 1]);
    }
  }

  /** The similarity score is the same with the two lists swapped. */
  lemma {:induction false} SimilaritySymmetric(l: seq<int>, r: seq<int>)
    ensures Similarity(l, r) == Similarity(r, l)
  {
    if r == [] {
      SimilarityEmptyRight(l);
    } else {
      var p, y := r[..|r| - 1], r[|r| - 1];
      assert r == p + [y];
      SimilarityAppendRight(l, p, y);
      SimilaritySymmetric(l, p);
      assert Similarity(r, l) == Similarity(p, l) + y * multiset(l)[y];
    }
  }

  /** No value of `l` occurring in `r` gives a score of 0. */
  lemma {:induction false} SimilarityDisjoint(l: seq<int>, r: seq<int>)
    requires forall i :: 0 <= i < |l| ==> l[i] !in r
    ensures Similarity(l, r) == 0
  {
    if l != [] {
      SimilarityDisjoint(l[..|l| - 1], r);
      assert multiset(r)[l[|l| - 1]] == 0;
    }
  }
}
