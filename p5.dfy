/**
  Day 5 library (p5/src/lib.rs): page-ordering rules `a|b` ("a comes before b"), updates
  (lists of pages) checked against them, and the re-ordering of the updates that fail.
*/
module P5 {
  import opened Wrappers
  import opened Text

  /** `std::cmp::Ordering`. */
  datatype Ordering = Less | Equal | Greater

  /** `check_order` on a rule table: `first` has an entry, and `second` is in it. */
  predicate Ordered(rules: map<int, seq<int>>, first: int, second: int) {
    if first in rules then second in rules[first] else false
  }

  /** The table after `entry(smaller).or_insert_with(Vec::new).push(larger)`. */
  function InsertPair(rules: map<int, seq<int>>, smaller: int, larger: int): (r: map<int, seq<int>>)
    ensures smaller in r && r[smaller] == (if smaller in rules then rules[smaller] else []) + [larger]
    ensures forall k :: k != smaller ==> (k in r <==> k in rules)
    ensures forall k :: k != smaller && k in rules ==> r[k] == rules[k]
  {
    rules[smaller := (if smaller in rules then rules[smaller] else []) + [larger]]
  }

  /** Inserting a rule orders exactly one more pair. */
  lemma InsertPairOrders(rules: map<int, seq<int>>, smaller: int, larger: int, a: int, b: int)
    ensures Ordered(InsertPair(rules, smaller, larger), a, b) <==> Ordered(rules, a, b) || (a == smaller && b == larger)
  {
  }

  /** The rule table built by inserting the pairs in order. */
  function Table(pairs: seq<(int, int)>): map<int, seq<int>> {
    if pairs == [] then map[]
    else
      var last := pairs[|pairs| - 1];
      InsertPair(Table(pairs[..|pairs| - 1]), last.0, last.1)
  }

  /** The successors listed for `a` by the pairs, in the order of the pairs. */
  function Successors(pairs: seq<(int, int)>, a: int): seq<int> {
    if pairs == [] then []
    else
      var last := pairs[|pairs| - 1];
      Successors(pairs[..|pairs| - 1], a) + (if last.0 == a then [last.1] else [])
  }

  /**
    The table has an entry for `a` exactly when some pair starts with `a`, and that entry lists
    the successors of `a` in the order the rules were inserted.
  */
  lemma {:induction false} TableEntries(pairs: seq<(int, int)>, a: int)
    ensures a in Table(pairs) <==> |Successors(pairs, a)| > 0
    ensures a in Table(pairs) ==> Table(pairs)[a] == Successors(pairs, a)
  {
    if pairs != [] {
      TableEntries(pairs[..|pairs| - 1], a);
    }
  }

  /** The table orders `a` before `b` exactly when `(a, b)` is one of the pairs. */
  lemma {:induction false} TableOrders(pairs: seq<(int, int)>, a: int, b: int)
    ensures Ordered(Table(pairs), a, b) <==> (a, b) in pairs
  {
    if pairs != [] {
      var p, last := pairs[..|pairs| - 1], pairs[|pairs| - 1];
      TableOrders(p, a, b);
      InsertPairOrders(Table(p), last.0, last.1, a, b);
      assert pairs == p + [last];
    }
  }

  /** The integers of a rule string: the pieces between `|` characters that parse. */
  function RuleInts(rule: string): seq<int> {
    ParsedInts(Split(rule, '|'))
  }

  /** A printed rule `a|b` gives back `a` and `b`. */
  lemma RuleIntsShow(a: int, b: int)
    ensures RuleInts(Show(a) + "|" + Show(b)) == [a, b]
  {
    ShowAvoids(a, '|');
    ShowAvoids(b, '|');
    SplitAt(Show(a), '|', Show(b));
    SplitWithout(Show(b), '|');
    ParseIntShow(a);
    ParseIntShow(b);
    var pieces := Split(Show(a) + "|" + Show(b), '|');
    assert pieces == [Show(a), Show(b)];
    assert pieces[1..] == [Show(b)] && pieces[1..][1..] == [];
    assert ParsedInts(pieces[1..][1..]) == [];
    assert ParsedInts(pieces[1..]) == [b];
  }

  /** `Ruleset`: for each page, the pages that must come after it. */
  class Ruleset {
    var rules: map<int, seq<int>>

    /** `Ruleset::new`: no rules. */
    constructor New()
      ensures rules == map[]
    {
      rules := map[];
    }

    /** `Ruleset::new_from_map`: a copy of the given table. */
    constructor NewFromMap(m: map<int, seq<int>>)
      ensures rules == m
    {
      rules := m;
    }

    /** `insert_rule`: append `larger` to the entry of `smaller`, creating it if absent. */
    method InsertRule(smaller: int, larger: int)
      modifies this
      ensures rules == InsertPair(old(rules), smaller, larger)
      ensures forall a, b :: Ordered(rules, a, b) <==> Ordered(old(rules), a, b) || (a == smaller && b == larger)
    {
      rules := rules[smaller := (if smaller in rules then rules[smaller] else []) + [larger]];
      forall a, b ensures Ordered(rules, a, b) <==> Ordered(old(rules), a, b) || (a == smaller && b == larger) {
        InsertPairOrders(old(rules), smaller, larger, a, b);
      }
    }

    /** `insert_rule_string`: parse `a|b` and insert it; it panics unless exactly two integers parse. */
    method InsertRuleString(rule: string)
      requires |RuleInts(rule)| == 2
      modifies this
      ensures rules == InsertPair(old(rules), RuleInts(rule)[0], RuleInts(rule)[1])
    {
      var parsed := ParsedInts(SplitStr(rule, "|"));
      InsertRule(parsed[0], parsed[1]);
    }

    /** `check_order`: `first` comes before `second` by the rules. */
    predicate CheckOrder(first: int, second: int)
      reads this
    {
      Ordered(rules, first, second)
    }

    /** `custom_order`: `Less` when `check_order` holds and `Greater` otherwise; never `Equal`. */
    function CustomOrder(first: int, second: int): (o: Ordering)
      reads this
      ensures o != Equal
      ensures o == Less <==> CheckOrder(first, second)
    {
      if CheckOrder(first, second) then Less else Greater
    }
  }

  /** Every page of the list comes before every later page, by the rules. */
  predicate ListOrdered(rules: map<int, seq<int>>, list: seq<int>) {
    forall i, j :: 0 <= i < j < |list| ==> Ordered(rules, list[i], list[j])
  }

  /** `check_list`; `0..list.len() - 1` panics on an empty list. */
  method CheckList(list: seq<int>, ruleSet: Ruleset) returns (ok: bool)
    requires |list| > 0
    ensures ok <==> ListOrdered(ruleSet.rules, list)
  {
    for i := 0 to |list| - 1
      invariant forall i', j :: 0 <= i' < i && i' < j < |list| ==> Ordered(ruleSet.rules, list[i'], list[j])
    {
      var smaller := list[i];
      for j := i + 1 to |list|
        invariant forall j' :: i < j' < j ==> Ordered(ruleSet.rules, smaller, list[j'])
      {
        var larger := list[j];
        if !ruleSet.CheckOrder(smaller, larger) {
          return false;
        }
      }
    }
    ok := true;
  }

  /** `x` put in front of the first element of `s` that the rules place after it. */
  function InsertBy(rules: map<int, seq<int>>, x: int, s: seq<int>): (r: seq<int>)
    ensures |r| == |s| + 1 && multiset(r) == multiset(s) + multiset{x}
  {
    if s == [] || Ordered(rules, x, s[0]) then [x] + s
    else
      assert s == [s[0]] + s[1..];
      [s[0]] + InsertBy(rules, x, s[1..])
  }

  /**
    `sort_by(custom_order)`, as an insertion sort. The library's own algorithm is not modelled;
    whatever it is, it returns a permutation, and when the rules totally order the pages there is
    only one ordered permutation (OrderedUnique), which this one is (SortByOrdered).
  */
  function SortBy(rules: map<int, seq<int>>, list: seq<int>): (r: seq<int>)
    ensures |r| == |list| && multiset(r) == multiset(list)
  {
    if list == [] then []
    else
      assert list == [list[0]] + list[1..];
      InsertBy(rules, list[0], SortBy(rules, list[1..]))
  }

  /** `correct_list`: the list sorted by `custom_order`; always a permutation of the list. */
  method CorrectList(list: seq<int>, ruleSet: Ruleset) returns (sorted: seq<int>)
    ensures sorted == SortBy(ruleSet.rules, list)
    ensures |sorted| == |list| && multiset(sorted) == multiset(list)
  {
    sorted := SortBy(ruleSet.rules, list);
  }

  /** On the values `xs`, the rules order every two distinct values one way and not the other, transitively. */
  predicate StrictTotalOn(rules: map<int, seq<int>>, xs: set<int>) {
    && (forall a, b :: a in xs && b in xs && a != b ==> (Ordered(rules, a, b) <==> !Ordered(rules, b, a)))
    && (forall a, b, c :: a in xs && b in xs && c in xs && Ordered(rules, a, b) && Ordered(rules, b, c) ==> Ordered(rules, a, c))
  }

  predicate NoDuplicates(list: seq<int>) {
    forall i, j :: 0 <= i < j < |list| ==> list[i] != list[j]
  }

  lemma {:induction false} InsertByOrdered(rules: map<int, seq<int>>, xs: set<int>, x: int, s: seq<int>)
    requires StrictTotalOn(rules, xs) && x in xs && (forall v :: v in s ==> v in xs)
    requires x !in s && ListOrdered(rules, s)
    ensures ListOrdered(rules, InsertBy(rules, x, s))
  {
    if s == [] || Ordered(rules, x, s[0]) {
      var r := [x] + s;
      forall i, j | 0 <= i < j < |r| ensures Ordered(rules, r[i], r[j]) {
        if i == 0 && j > 1 {
          assert r[j] == s[j - 1];
          assert Ordered(rules, s[0], s[j - 1]);
        }
      }
    } else {
      assert s[0] in s;
      assert Ordered(rules, s[0], x);
      var t := InsertBy(rules, x, s[1..]);
      assert s == [s[0]] + s[1..];
      InsertByOrdered(rules, xs, x, s[1..]);
      var r := [s[0]] + t;
      forall i, j | 0 <= i < j < |r| ensures Ordered(rules, r[i], r[j]) {
        if i == 0 {
          assert r[j] in multiset(t);
          assert r[j] == x || r[j] in s[1..];
          if r[j] != x {
            var k :| 0 <= k < |s[1..]| && s[1..][k] == r[j];
            assert s[k + 1] == r[j];
          }
        } else {
          assert r[i] == t[i - 1] && r[j] == t[j - 1];
        }
      }
    }
  }

  /** When the rules totally order the distinct pages of a list, the corrected list passes `check_list`. */
  lemma {:induction false} SortByOrdered(rules: map<int, seq<int>>, xs: set<int>, list: seq<int>)
    requires StrictTotalOn(rules, xs) && (forall v :: v in list ==> v in xs)
    requires NoDuplicates(list)
    ensures ListOrdered(rules, SortBy(rules, list))
  {
    if list != [] {
      var rest := list[1..];
      assert list == [list[0]] + rest;
      assert NoDuplicates(rest) by {
        forall i, j | 0 <= i < j < |rest| ensures rest[i] != rest[j] {
          assert rest[i] == list[i + 1] && rest[j] == list[j + 1];
        }
      }
      SortByOrdered(rules, xs, rest);
      assert list[0] !in rest by {
        forall k | 0 <= k < |rest| ensures rest[k] != list[0] {
          assert rest[k] == list[k + 1];
        }
      }
      var sorted := SortBy(rules, rest);
      assert list[0] !in multiset(sorted);
      forall v | v in sorted ensures v in xs {
        assert v in multiset(rest);
      }
      InsertByOrdered(rules, xs, list[0], sorted);
    }
  }

  lemma TailOrdered(rules: map<int, seq<int>>, a: seq<int>)
    requires |a| > 0 && ListOrdered(rules, a)
    ensures ListOrdered(rules, a[1..])
  {
    forall i, j | 0 <= i < j < |a[1..]| ensures Ordered(rules, a[1..][i], a[1..][j]) {
      assert a[1..][i] == a[i + 1] && a[1..][j] == a[j + 1];
    }
  }

  lemma TailNoDuplicates(a: seq<int>)
    requires |a| > 0 && NoDuplicates(a)
    ensures NoDuplicates(a[1..]) && a[0] !in a[1..]
  {
    forall i, j | 0 <= i < j < |a[1..]| ensures a[1..][i] != a[1..][j] {
      assert a[1..][i] == a[i + 1] && a[1..][j] == a[j + 1];
    }
    forall k | 0 <= k < |a[1..]| ensures a[1..][k] != a[0] {
      assert a[1..][k] == a[k + 1];
    }
  }

  /** Two ordered lists with the same distinct pages start with the same page. */
  lemma OrderedHeads(rules: map<int, seq<int>>, xs: set<int>, a: seq<int>, b: seq<int>)
    requires StrictTotalOn(rules, xs) && (forall v :: v in a ==> v in xs)
    requires |a| > 0 && multiset(a) == multiset(b)
    requires ListOrdered(rules, a) && ListOrdered(rules, b)
    ensures |b| > 0 && a[0] == b[0]
  {
    assert a[0] in multiset(b);
    assert b[0] in multiset(a);
    var i :| 0 <= i < |a| && a[i] == b[0];
    var j :| 0 <= j < |b| && b[j] == a[0];
    if a[0] != b[0] {
      assert false;
    }
  }

  /** Lists with the same elements and the same first element have tails with the same elements. */
  lemma TailMultiset(a: seq<int>, b: seq<int>)
    requires |a| > 0 && |b| > 0 && a[0] == b[0] && multiset(a) == multiset(b)
    ensures multiset(a[1..]) == multiset(b[1..])
  {
    assert a == [a[0]] + a[1..] && b == [b[0]] + b[1..];
    assert multiset(a[1..]) == multiset(a) - multiset{a[0]};
  }

  /** Two ordered lists with the same pages are equal: the rules then leave the sort nothing to choose. */
  lemma {:induction false} OrderedUnique(rules: map<int, seq<int>>, xs: set<int>, a: seq<int>, b: seq<int>)
    requires StrictTotalOn(rules, xs) && (forall v :: v in a ==> v in xs)
    requires NoDuplicates(a) && multiset(a) == multiset(b)
    requires ListOrdered(rules, a) && ListOrdered(rules, b)
    ensures a == b
  {
    if a == [] {
      assert |multiset(b)| == 0;
    } else {
      OrderedHeads(rules, xs, a, b);
      TailMultiset(a, b);
      TailNoDuplicates(a);
      TailOrdered(rules, a);
      TailOrdered(rules, b);
      OrderedUnique(rules, xs, a[1..], b[1..]);
    }
  }

  /** What `split_input` demands: with the spaces removed, exactly one blank line (`\n\n`) separates two blocks. */
  predicate SplitInputDefined(input: string) {
    |SplitStr(Remove(input, ' '), "\n\n")| == 2
  }

  /** `split_input`: remove every space, split at the blank line, and take the lines of each block. */
  function SplitInput(input: string): (r: (seq<string>, seq<string>))
    requires SplitInputDefined(input)
    ensures forall i :: 0 <= i < |r.0| ==> ' ' !in r.0[i] && '\n' !in r.0[i]
    ensures forall i :: 0 <= i < |r.1| ==> ' ' !in r.1[i] && '\n' !in r.1[i]
  {
    var blocks := SplitStr(Remove(input, ' '), "\n\n");
    SplitPiecesAvoid(Remove(input, ' '), "\n\n", ' ');
    LinesAvoid(blocks[0], ' ');
    LinesAvoid(blocks[1], ' ');
    (Lines(blocks[0]), Lines(blocks[1]))
  }

  lemma {:induction false} SplitPiecesAvoid(s: string, sep: string, c: char)
    requires |sep| > 0 && c !in s
    ensures forall i :: 0 <= i < |SplitStr(s, sep)| ==> c !in SplitStr(s, sep)[i]
    decreases |s|
  {
    var k := Find(s, sep);
    if k < |s| {
      SplitPiecesAvoid(s[k + |sep|..], sep, c);
    }
  }

  lemma {:induction false} LinesAvoid(s: string, c: char)
    requires c !in s
    ensures forall i :: 0 <= i < |Lines(s)| ==> c !in Lines(s)[i]
    decreases |s|
  {
    if s != [] {
      var k := Find(s, "\n");
      if k < |s| {
        LinesAvoid(s[k + 1..], c);
      }
    }
  }

  /** Plain lines without spaces, as `split_input` returns them. */
  predicate InputLines(ls: seq<string>) {
    forall i :: 0 <= i < |ls| ==> PlainLine(ls[i]) && ' ' !in ls[i]
  }

  /** Joined plain lines can be followed by anything: the first blank line is where they end. */
  lemma FindBlankLine(rs: seq<string>, rest: string)
    requires InputLines(rs)
    ensures Find(JoinLines(rs) + "\n\n" + rest, "\n\n") == |JoinLines(rs)|
  {
    var a := JoinLines(rs);
    var s := a + "\n\n" + rest;
    assert s[|a|..|a| + 2] == "\n\n";
    assert OccursAt(s, "\n\n", |a|);
    forall j | 0 <= j < |a| ensures !OccursAt(s, "\n\n", j) {
      if j + 2 <= |a| {
        NoBlankLine(rs, j);
        assert s[j..j + 2] == a[j..j + 2];
      } else {
        JoinLinesEnds(rs);
        assert s[j] == a[|a| - 1];
        assert a[|a| - 1] in rs[|rs| - 1];
        assert s[j..j + 2][0] == s[j];
      }
    }
  }

  /** Rules and updates written as the puzzle input, a blank line in between, are split back into them. */
  lemma SplitInputRoundTrip(rs: seq<string>, ps: seq<string>)
    requires InputLines(rs) && InputLines(ps)
    ensures SplitInputDefined(JoinLines(rs) + "\n\n" + JoinLines(ps))
    ensures SplitInput(JoinLines(rs) + "\n\n" + JoinLines(ps)) == (rs, ps)
  {
    var a, b := JoinLines(rs), JoinLines(ps);
    var s := a + "\n\n" + b;
    JoinLinesAvoids(rs, ' ');
    JoinLinesAvoids(ps, ' ');
    RemoveAbsent(s, ' ');
    FindBlankLine(rs, b);
    assert s[..|a|] == a && s[|a| + 2..] == b;
    forall j | 0 <= j < |b| ensures !OccursAt(b, "\n\n", j) {
      NoBlankLine(ps, j);
    }
    assert SplitStr(b, "\n\n") == [b];
    assert SplitStr(s, "\n\n") == [a, b];
    LinesJoinLines(rs);
    LinesJoinLines(ps);
  }

  /** Every rule string gives exactly two integers. */
  predicate RulesParse(ruleStrings: seq<string>) {
    forall i :: 0 <= i < |ruleStrings| ==> |RuleInts(ruleStrings[i])| == 2
  }

  /** The `(smaller, larger)` pairs of the rule strings, in order. */
  function RulePairs(ruleStrings: seq<string>): (r: seq<(int, int)>)
    requires RulesParse(ruleStrings)
    ensures |r| == |ruleStrings|
  {
    seq(|ruleStrings|, i requires 0 <= i < |ruleStrings| => (RuleInts(ruleStrings[i])[0], RuleInts(ruleStrings[i])[1]))
  }

  /** The pages of an update line: the comma-separated pieces that parse. */
  function PageList(line: string): seq<int> {
    ParsedInts(Split(line, ','))
  }

  function PageLists(lines: seq<string>): (r: seq<seq<int>>)
    ensures |r| == |lines| && forall i :: 0 <= i < |r| ==> r[i] == PageList(lines[i])
  {
    seq(|lines|, i requires 0 <= i < |lines| => PageList(lines[i]))
  }

  predicate AllNonEmpty(pages: seq<seq<int>>) {
    forall i :: 0 <= i < |pages| ==> |pages[i]| > 0
  }

  /** What both solutions demand of the input: it splits, every rule parses, and no update is empty. */
  predicate SolutionDefined(input: string) {
    && SplitInputDefined(input)
    && RulesParse(SplitInput(input).0)
    && AllNonEmpty(PageLists(SplitInput(input).1))
  }

  /** The sum of the middle pages of the updates that are already in order. */
  function SumOrdered(rules: map<int, seq<int>>, pages: seq<seq<int>>): int
    requires AllNonEmpty(pages)
  {
    if pages == [] then 0
    else
      var last := pages[|pages| - 1];
      SumOrdered(rules, pages[..|pages| - 1]) + (if ListOrdered(rules, last) then last[|last| / 2] else 0)
  }

  /** The updates that are out of order, each corrected, in order. */
  function CorrectedPages(rules: map<int, seq<int>>, pages: seq<seq<int>>): (r: seq<seq<int>>)
    requires AllNonEmpty(pages)
    ensures AllNonEmpty(r) && |r| <= |pages|
  {
    if pages == [] then []
    else
      var last := pages[|pages| - 1];
      CorrectedPages(rules, pages[..|pages| - 1]) + (if ListOrdered(rules, last) then [] else [SortBy(rules, last)])
  }

  /** The sum of the middle pages. */
  function MiddleSum(pages: seq<seq<int>>): int
    requires AllNonEmpty(pages)
  {
    if pages == [] then 0
    else
      var last := pages[|pages| - 1];
      MiddleSum(pages[..|pages| - 1]) + last[|last| / 2]
  }

  /** When no update is out of order, nothing is corrected. */
  lemma {:induction false} AllOrderedNothingCorrected(rules: map<int, seq<int>>, pages: seq<seq<int>>)
    requires AllNonEmpty(pages)
    requires forall i :: 0 <= i < |pages| ==> ListOrdered(rules, pages[i])
    ensures CorrectedPages(rules, pages) == []
    ensures SumOrdered(rules, pages) == MiddleSum(pages)
  {
    if pages != [] {
      AllOrderedNothingCorrected(rules, pages[..|pages| - 1]);
    }
  }

  /** When the rules totally order the distinct pages of every update, every corrected update is in order. */
  lemma {:induction false} CorrectedPagesOrdered(rules: map<int, seq<int>>, xs: set<int>, pages: seq<seq<int>>)
    requires AllNonEmpty(pages) && StrictTotalOn(rules, xs)
    requires forall i :: 0 <= i < |pages| ==> NoDuplicates(pages[i]) && forall v :: v in pages[i] ==> v in xs
    ensures forall i :: 0 <= i < |CorrectedPages(rules, pages)| ==> ListOrdered(rules, CorrectedPages(rules, pages)[i])
  {
    if pages != [] {
      var last := pages[|pages| - 1];
      CorrectedPagesOrdered(rules, xs, pages[..|pages| - 1]);
      SortByOrdered(rules, xs, last);
    }
  }

  /** Insert the rules of the strings into a new rule set, in order. */
  method BuildRuleset(ruleStrings: seq<string>) returns (rules: Ruleset)
    requires RulesParse(ruleStrings)
    ensures fresh(rules)
    ensures rules.rules == Table(RulePairs(ruleStrings))
  {
    rules := new Ruleset.New();
    for i := 0 to |ruleStrings|
      invariant rules.rules == Table(RulePairs(ruleStrings[..i]))
    {
      rules.InsertRuleString(ruleStrings[i]);
      assert RulePairs(ruleStrings[..i + 1])[..i] == RulePairs(ruleStrings[..i]);
    }
    assert ruleStrings[..|ruleStrings|] == ruleStrings;
  }

  /** The loop of `solution_one` over the update lines. */
  method SumOrderedUpdates(lines: seq<string>, rules: Ruleset) returns (result: int)
    requires AllNonEmpty(PageLists(lines))
    ensures result == SumOrdered(rules.rules, PageLists(lines))
  {
    result := 0;
    for k := 0 to |lines|
      invariant result == SumOrdered(rules.rules, PageLists(lines[..k]))
    {
      var pageVec := ParsedInts(SplitStr(lines[k], ","));
      assert pageVec == PageLists(lines)[k];
      var ok := CheckList(pageVec, rules);
      if ok {
        var middleId := |pageVec| / 2;
        result := result + pageVec[middleId];
      }
      assert PageLists(lines[..k + 1])[..k] == PageLists(lines[..k]);
    }
    assert lines[..|lines|] == lines;
  }

  /** `solution_one`: split the input, insert every rule, and add up the middle page of each update that passes `check_list`. */
  method SolutionOne(input: string) returns (result: int)
    requires SolutionDefined(input)
    ensures result == SumOrdered(Table(RulePairs(SplitInput(input).0)), PageLists(SplitInput(input).1))
  {
    var splitInputs := SplitInput(input);
    var rules := BuildRuleset(splitInputs.0);
    result := SumOrderedUpdates(splitInputs.1, rules);
  }

  /** The first loop of `solution_two`: parse every update line. */
  method ParsePages(lines: seq<string>) returns (pages: seq<seq<int>>)
    ensures pages == PageLists(lines)
  {
    pages := [];
    for k := 0 to |lines|
      invariant pages == PageLists(lines[..k])
    {
      var pageVec := ParsedInts(SplitStr(lines[k], ","));
      pages := pages + [pageVec];
    }
    assert lines[..|lines|] == lines;
  }

  /** The `filter` and `map` of `solution_two`: the updates failing `check_list`, each corrected. */
  method CorrectIncorrect(pages: seq<seq<int>>, rules: Ruleset) returns (sortedPages: seq<seq<int>>)
    requires AllNonEmpty(pages)
    ensures sortedPages == CorrectedPages(rules.rules, pages)
  {
    sortedPages := [];
    for k := 0 to |pages|
      invariant sortedPages == CorrectedPages(rules.rules, pages[..k])
    {
      var ok := CheckList(pages[k], rules);
      if !ok {
        var sorted := CorrectList(pages[k], rules);
        sortedPages := sortedPages + [sorted];
      }
      assert pages[..k + 1][..k] == pages[..k];
    }
    assert pages[..|pages|] == pages;
  }

  /** The last loop of `solution_two`: add up the middle pages. */
  method SumMiddles(lists: seq<seq<int>>) returns (result: int)
    requires AllNonEmpty(lists)
    ensures result == MiddleSum(lists)
  {
    result := 0;
    for k := 0 to |lists|
      invariant result == MiddleSum(lists[..k])
    {
      var list := lists[k];
      var middleId := |list| / 2;
      result := result + list[middleId];
      assert lists[..k + 1][..k] == lists[..k];
    }
    assert lists[..|lists|] == lists;
  }

  /**
    `solution_two`: split the input, insert every rule, keep the updates that fail `check_list`,
    correct each one, and add up their middle pages.
  */
  method SolutionTwo(input: string) returns (result: int)
    requires SolutionDefined(input)
    ensures result == MiddleSum(CorrectedPages(Table(RulePairs(SplitInput(input).0)), PageLists(SplitInput(input).1)))
  {
    var splitInputs := SplitInput(input);
    var rules := BuildRuleset(splitInputs.0);
    var pages := ParsePages(splitInputs.1);
    var sortedPages := CorrectIncorrect(pages, rules);
    result := SumMiddles(sortedPages);
  }
}
