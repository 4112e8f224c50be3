/**
  Day 2 library (p2/src/lib.rs): a report (a list of levels) is safe when its levels move in
  one direction by steps of 1 to 3; the dampener tolerates one bad level.
*/
module P2 {

  /** The differences all nonzero, of size at most 3, and all of one sign. */
  predicate SafeSteps(d: seq<int>) {
    && (forall i :: 0 <= i < |d| ==> d[i] != 0 && -3 <= d[i] <= 3)
    && ((forall i :: 0 <= i < |d| ==> d[i] > 0) || (forall i :: 0 <= i < |d| ==> d[i] < 0))
  }

  /** The step from level `i` to level `i + 1` goes up by 1, 2 or 3. */
  predicate RisesAt(l: seq<int>, i: int)
    requires 0 <= i < |l| - 1
  {
    1 <= l[i + 1] - l[i] <= 3
  }

  /** The step from level `i` to level `i + 1` goes down by 1, 2 or 3. */
  predicate FallsAt(l: seq<int>, i: int)
    requires 0 <= i < |l| - 1
  {
    1 <= l[i] - l[i + 1] <= 3
  }

  /** Strictly increasing or strictly decreasing, each step changing the level by 1, 2 or 3. */
  predicate Safe(l: seq<int>) {
    || (forall i :: 0 <= i < |l| - 1 ==> RisesAt(l, i))
    || (forall i :: 0 <= i < |l| - 1 ==> FallsAt(l, i))
  }

  /** `l` without the level at index `k`; an index outside `l` removes nothing. */
  function RemoveAt(l: seq<int>, k: int): (r: seq<int>)
    ensures 0 <= k < |l| ==> |r| == |l| - 1
    ensures 0 <= k < |l| ==> forall i :: 0 <= i < |r| ==> r[i] == if i < k then l[i] else l[i + 1]
    ensures !(0 <= k < |l|) ==> r == l
  {
    if 0 <= k < |l| then l[..k] + l[k + 1..] else l
  }

  /** The report is safe, or becomes safe once one level is removed. */
  predicate SafeDampened(l: seq<int>) {
    Safe(l) || exists i :: 0 <= i < |l| && Safe(RemoveAt(l, i))
  }

  /** The local `IncreasingTracker` of `validate_boundary`. */
  datatype IncreasingTracker = IncreasingTracker(isSet: bool, increasing: bool)

  /** `validate_list`: the differences of the report are valid. `create_boundary` panics on an empty report. */
  method ValidateList(list: seq<int>) returns (ok: bool)
    requires |list| > 0
    ensures ok <==> Safe(list)
  {
    var listBoundary := CreateBoundary(list);
    ok := ValidateBoundary(listBoundary);
    StepsOfDifferences(list, listBoundary);
  }

  /** A report is safe exactly when the sequence of its neighbouring differences passes the boundary test. */
  lemma StepsOfDifferences(l: seq<int>, d: seq<int>)
    requires |d| == |l| - 1
    requires forall i :: 0 <= i < |d| ==> d[i] == l[i + 1] - l[i]
    ensures SafeSteps(d) <==> Safe(l)
  {
    if SafeSteps(d) {
      if forall i :: 0 <= i < |d| ==> d[i] > 0 {
        forall i | 0 <= i < |l| - 1 ensures RisesAt(l, i) {
          assert d[i] == l[i + 1] - l[i];
        }
      } else {
        forall i | 0 <= i < |l| - 1 ensures FallsAt(l, i) {
          assert d[i] == l[i + 1] - l[i];
        }
      }
    }
    if Safe(l) {
      if forall i :: 0 <= i < |l| - 1 ==> RisesAt(l, i) {
        forall i | 0 <= i < |d| ensures 0 < d[i] <= 3 {
          assert RisesAt(l, i);
        }
      } else {
        forall i | 0 <= i < |d| ensures -3 <= d[i] < 0 {
          assert FallsAt(l, i);
        }
      }
    }
  }

  /** `validate_list_with_damp`: the report itself, then each report with one level removed, in order. */
  method ValidateListWithDamp(list: seq<int>) returns (ok: bool)
    requires |list| > 0
    ensures ok <==> SafeDampened(list)
  {
    ok := ValidateList(list);
    if ok {
      return;
    }
    assert |list| >= 2;
    for i := 0 to |list|
      invariant NoneSafeBelow(list, i)
    {
      var dampedList := DampenLevel(i, list);
      ok := ValidateList(dampedList);
      if ok {
        return;
      }
    }
    NoneSafeBelowAll(list, |list|);
    ok := false;
  }

  /** No removal of one of the first `k` levels makes the report safe. */
  predicate NoneSafeBelow(l: seq<int>, k: nat) {
    k == 0 || (NoneSafeBelow(l, k - 1) && !Safe(RemoveAt(l, k - 1)))
  }

  lemma {:induction false} NoneSafeBelowAll(l: seq<int>, k: nat)
    requires NoneSafeBelow(l, k)
    ensures forall j :: 0 <= j < k ==> !Safe(RemoveAt(l, j))
  {
    if k > 0 {
      NoneSafeBelowAll(l, k - 1);
    }
  }

  /** `validate_boundary`: every difference nonzero and at most 3 in size, all with the sign of the first. */
  method ValidateBoundary(list: seq<int>) returns (ok: bool)
    ensures ok <==> SafeSteps(list)
  {
    var tracker := IncreasingTracker(false, false);
    for k := 0 to |list|
      invariant forall i :: 0 <= i < k ==> list[i] != 0 && -3 <= list[i] <= 3
      invariant tracker.isSet <==> k > 0
      invariant tracker.isSet ==> forall i :: 0 <= i < k ==> (list[i] > 0) == tracker.increasing
    {
      var i := list[k];
      if i == 0 {
        return false;
      } else if i > 3 || i < -3 {
        return false;
      }
      if tracker.isSet {
        if tracker.increasing != (i > 0) {
          assert (list[0] > 0) != (list[k] > 0);
          return false;
        }
      } else {
        tracker := tracker.(increasing := i > 0, isSet := true);
      }
    }
    ok := true;
  }

  /** `create_boundary`: the differences between neighbouring levels. */
  method CreateBoundary(list: seq<int>) returns (result: seq<int>)
    requires |list| > 0
    ensures |result| == |list| - 1
    ensures forall i :: 0 <= i < |result| ==> result[i] == list[i + 1] - list[i]
  {
    result := [];
    for i := 0 to |list| - 1
      invariant |result| == i
      invariant forall j :: 0 <= j < i ==> result[j] == list[j + 1] - list[j]
    {
      result := result + [list[i + 1] - list[i]];
    }
  }

  /** `dampen_level`: the levels in order, skipping the one whose index equals `dampedLevel`. */
  method DampenLevel(dampedLevel: int, list: seq<int>) returns (result: seq<int>)
    ensures result == RemoveAt(list, dampedLevel)
  {
    result := [];
    for i := 0 to |list|
      invariant result == RemoveAt(list[..i], dampedLevel)
    {
      if i == dampedLevel {
        assert list[..i + 1] == list[..i] + [list[i]];
        continue;
      }
      assert list[..i + 1] == list[..i] + [list[i]];
      result := result + [list[i]];
    }
    assert list[..|list|] == list;
  }

  /** A report with a step that is not an increase of 1 to 3 and one that is not such a decrease is unsafe. */
  lemma Unsafe(l: seq<int>, i: int, j: int)
    requires 0 <= i < |l| - 1 && !RisesAt(l, i)
    requires 0 <= j < |l| - 1 && !FallsAt(l, j)
    ensures !Safe(l)
  {
  }

  /** A report of the unit tests with one level out of order: unsafe, but safe once dampened. */
  lemma DampenAccepts()
    ensures !Safe([1, 3, 2, 4, 5]) && SafeDampened([1, 3, 2, 4, 5])
  {
    var a := [1, 3, 2, 4, 5];
    Unsafe(a, 1, 0);
    assert RemoveAt(a, 1) == [1, 2, 4, 5];
  }

  /** A report of the unit tests with a jump of 5: no single removal makes it safe. */
  lemma DampenRejects()
    ensures !SafeDampened([1, 2, 7, 8, 9])
  {
    var b := [1, 2, 7, 8, 9];
    Unsafe(b, 1, 0);
    forall i | 0 <= i < |b| ensures !Safe(RemoveAt(b, i)) {
      if i == 0 {
        assert RemoveAt(b, i) == [2, 7, 8, 9];
        Unsafe([2, 7, 8, 9], 0, 0);
      } else if i == 1 {
        assert RemoveAt(b, i) == [1, 7, 8, 9];
        Unsafe([1, 7, 8, 9], 0, 0);
      } else if i == 2 {
        assert RemoveAt(b, i) == [1, 2, 8, 9];
        Unsafe([1, 2, 8, 9], 1, 0);
      } else if i == 3 {
        assert RemoveAt(b, i) == [1, 2, 7, 9];
        Unsafe([1, 2, 7, 9], 1, 0);
      } else {
        assert RemoveAt(b, i) == [1, 2, 7, 8];
        Unsafe([1, 2, 7, 8], 1, 0);
      }
    }
  }
}
