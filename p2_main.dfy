/**
  Day 2 driver (p2/src/main.rs): read one report per line and count the safe reports.
*/
module P2Main {
  import opened Text
  import opened P2

  /** The number of safe reports. */
  function CountSafe(reports: seq<seq<int>>): (n: nat)
    ensures n <= |reports|
  {
    if reports == [] then 0
    else CountSafe(reports[..|reports| - 1]) + (if Safe(reports[|reports| - 1]) then 1 else 0)
  }

  /** The number of reports that are safe once dampened. */
  function CountDampened(reports: seq<seq<int>>): (n: nat)
    ensures n <= |reports|
  {
    if reports == [] then 0
    else CountDampened(reports[..|reports| - 1]) + (if SafeDampened(reports[|reports| - 1]) then 1 else 0)
  }

  /** Every report has a level: `create_boundary` panics on an empty one. */
  predicate AllNonEmpty(reports: seq<seq<int>>) {
    forall i :: 0 <= i < |reports| ==> |reports[i]| > 0
  }

  /** `solution_one`: the number of reports that `validate_list` accepts. */
  method SolutionOne(reports: seq<seq<int>>) returns (result: int)
    requires AllNonEmpty(reports)
    ensures result == CountSafe(reports)
  {
    result := 0;
    for k := 0 to |reports|
      invariant result == CountSafe(reports[..k])
    {
      var ok := ValidateList(reports[k]);
      if ok {
        result := result + 1;
      }
      assert reports[..k + 1][..k] == reports[..k];
    }
    assert reports[..|reports|] == reports;
  }

  /** `solution_two`: the number of reports that `validate_list_with_damp` accepts. */
  method SolutionTwo(reports: seq<seq<int>>) returns (result: int)
    requires AllNonEmpty(reports)
    ensures result == CountDampened(reports)
  {
    result := 0;
    for k := 0 to |reports|
      invariant result == CountDampened(reports[..k])
    {
      var ok := ValidateListWithDamp(reports[k]);
      if ok {
        result := result + 1;
      }
      assert reports[..k + 1][..k] == reports[..k];
    }
    assert reports[..|reports|] == reports;
  }

  /** The dampener never rejects a report that was already safe, so part two counts at least as many. */
  lemma {:induction false} DampenedCountsMore(reports: seq<seq<int>>)
    ensures CountSafe(reports) <= CountDampened(reports)
  {
    if reports != [] {
      DampenedCountsMore(reports[..|reports| - 1]);
    }
  }

  /** When every report is safe, both parts count all of them. */
  lemma {:induction false} AllSafeCounted(reports: seq<seq<int>>)
    requires forall i :: 0 <= i < |reports| ==> Safe(reports[i])
    ensures CountSafe(reports) == |reports| && CountDampened(reports) == |reports|
  {
    if reports != [] {
      AllSafeCounted(reports[..|reports| - 1]);
    }
  }

  /**
    `get_reports`, without the file: one report per line, made of the pieces between single
    spaces that parse as integers (an empty piece or a stray word is skipped).
  */
  function GetReports(input: string): (reports: seq<seq<int>>)
    ensures |reports| == |Lines(input)|
    ensures forall i :: 0 <= i < |reports| ==> reports[i] == ParsedInts(Split(Lines(input)[i], ' '))
  {
    var ls := Lines(input);
    seq(|ls|, i requires 0 <= i < |ls| => ParsedInts(Split(ls[i], ' ')))
  }

  /** A line of printed integers separated by single spaces reads back as those integers. */
  lemma {:induction false} ReportRoundTrip(levels: seq<int>)
    requires |levels| > 0
    ensures ParsedInts(Split(JoinSpaced(levels), ' ')) == levels
  {
    ParseIntShow(levels[0]);
    ShowAvoids(levels[0], ' ');
    if |levels| == 1 {
      SplitWithout(Show(levels[0]), ' ');
    } else {
      SplitAt(Show(levels[0]), ' ', JoinSpaced(levels[1..]));
      ReportRoundTrip(levels[1..]);
    }
  }
}
