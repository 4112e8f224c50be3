/**
  Day 3 library (p3/src/lib.rs): find the `mul(a,b)` instructions in corrupted memory, take
  each one apart, and add up the products.
*/
module P3 {
  import opened Wrappers
  import opened Text

  /** `t` is `mul(` then the digits `x`, a comma, the digits `y`, and `)`. */
  predicate MulParts(t: string, x: string, y: string) {
    |x| > 0 && |y| > 0 && AllDigits(x) && AllDigits(y) && t == "mul(" + x + "," + y + ")"
  }

  /** `t` is a whole match of the pattern `mul\(\d+,\d+\)`. */
  ghost predicate IsMulToken(t: string) {
    exists x, y :: MulParts(t, x, y)
  }

  /** The slice between the four-character prefix and the final character. */
  function Inner(s: string): string
    requires |s| >= 5
  {
    s[4..|s| - 1]
  }

  /**
    What `parse_mul` demands of its argument: the slice `[4..len - 1]` exists, and its first
    two comma-separated pieces parse as integers. Anything else panics.
  */
  predicate ParseMulDefined(s: string) {
    && |s| >= 5
    && |Split(Inner(s), ',')| >= 2
    && ParseInt(Split(Inner(s), ',')[0]).Some?
    && ParseInt(Split(Inner(s), ',')[1]).Some?
  }

  /** `parse_mul`: drop four characters in front and one behind, split on `,`, and parse the first two pieces. */
  function ParseMul(s: string): (r: (int, int))
    requires ParseMulDefined(s)
  {
    var split := Split(Inner(s), ',');
    (ParseInt(split[0]).value, ParseInt(split[1]).value)
  }

  /** A digit string is not signed, so it parses as its own value. */
  lemma ParseDigits(x: string)
    requires |x| > 0 && AllDigits(x)
    ensures ParseInt(x) == Some(DigitsValue(x))
  {
    assert IsDigit(x[0]);
  }

  lemma NoCommaInDigits(x: string)
    requires AllDigits(x)
    ensures ',' !in x
  {
    forall i | 0 <= i < |x| ensures x[i] != ',' {
      assert IsDigit(x[i]);
    }
  }

  /** Every whole match of the pattern can be parsed, and gives the values of its two digit runs. */
  lemma ParseMulToken(t: string, x: string, y: string)
    requires MulParts(t, x, y)
    ensures ParseMulDefined(t) && ParseMul(t) == (DigitsValue(x), DigitsValue(y))
  {
    assert Inner(t) == x + [','] + y;
    NoCommaInDigits(x);
    NoCommaInDigits(y);
    SplitAt(x, ',', y);
    SplitWithout(y, ',');
    ParseDigits(x);
    ParseDigits(y);
  }

  /** Printing two integers, negative ones included, into `mul(x,y)` and parsing the result gives them back. */
  lemma ParseMulShow(x: int, y: int)
    ensures ParseMulDefined("mul(" + Show(x) + "," + Show(y) + ")")
    ensures ParseMul("mul(" + Show(x) + "," + Show(y) + ")") == (x, y)
  {
    var t := "mul(" + Show(x) + "," + Show(y) + ")";
    assert Inner(t) == Show(x) + [','] + Show(y);
    ShowAvoids(x, ',');
    ShowAvoids(y, ',');
    SplitAt(Show(x), ',', Show(y));
    SplitWithout(Show(y), ',');
    ParseIntShow(x);
    ParseIntShow(y);
  }

  /** Only the slice matters: the four leading characters and the last one are never looked at. */
  lemma ParseMulIgnoresFrame(s: string, s': string)
    requires |s| >= 5 && |s'| >= 5 && Inner(s) == Inner(s')
    ensures ParseMulDefined(s) <==> ParseMulDefined(s')
    ensures ParseMulDefined(s) ==> ParseMul(s) == ParseMul(s')
  {
  }

  /** Every string of the list can be parsed. */
  predicate AllParse(ms: seq<string>) {
    forall i :: 0 <= i < |ms| ==> ParseMulDefined(ms[i])
  }

  /** The sum of `x * y` over the parsed pairs of the strings. */
  function SumOfProducts(ms: seq<string>): int
    requires AllParse(ms)
  {
    if ms == [] then 0
    else
      var p := ParseMul(ms[|ms| - 1]);
      SumOfProducts(ms[..|ms| - 1]) + p.0 * p.1
  }

  /** `mul_strings_to_result_one`: parse each string and add up the products, in order (0 for no strings). */
  method MulStringsToResultOne(mulStrings: seq<string>) returns (result: int)
    requires AllParse(mulStrings)
    ensures result == SumOfProducts(mulStrings)
  {
    result := 0;
    for i := 0 to |mulStrings|
      invariant result == SumOfProducts(mulStrings[..i])
    {
      var (x, y) := ParseMul(mulStrings[i]);
      result := result + x * y;
      assert mulStrings[..i + 1][..i] == mulStrings[..i];
    }
    assert mulStrings[..|mulStrings|] == mulStrings;
  }

  /** The sum over a concatenation is the sum of the sums. */
  lemma {:induction false} SumOfProductsAppend(a: seq<string>, b: seq<string>)
    requires AllParse(a) && AllParse(b)
    ensures AllParse(a + b)
    ensures SumOfProducts(a + b) == SumOfProducts(a) + SumOfProducts(b)
  {
    if b == [] {
      assert a + b == a;
    } else {
      SumOfProductsAppend(a, b[..|b| - 1]);
      assert (a + b)[..|a + b| - 1] == a + b[..|b| - 1];
      assert (a + b)[|a + b| - 1] == b[|b| - 1];
    }
  }

  /** The instruction text for the pair `(x, y)`. */
  function MulText(x: int, y: int): string {
    "mul(" + Show(x) + "," + Show(y) + ")"
  }

  function MulTexts(ps: seq<(int, int)>): seq<string> {
    seq(|ps|, i requires 0 <= i < |ps| => MulText(ps[i].0, ps[i].1))
  }

  /** The sum of `x * y` over the pairs. */
  function PairProducts(ps: seq<(int, int)>): int {
    if ps == [] then 0 else PairProducts(ps[..|ps| - 1]) + ps[|ps| - 1].0 * ps[|ps| - 1].1
  }

  /**
    For the printed instructions of any pairs, as in the test `1 * 2 + 3 * 4 + 5 * 6`, the
    sum is the sum of the products of the pairs.
  */
  lemma {:induction false} SumOfProductsOfTexts(ps: seq<(int, int)>)
    ensures AllParse(MulTexts(ps))
    ensures SumOfProducts(MulTexts(ps)) == PairProducts(ps)
  {
    forall i | 0 <= i < |ps| ensures ParseMulDefined(MulTexts(ps)[i]) {
      ParseMulShow(ps[i].0, ps[i].1);
    }
    if ps != [] {
      var n := |ps| - 1;
      assert MulTexts(ps)[..n] == MulTexts(ps[..n]);
      SumOfProductsOfTexts(ps[..n]);
      ParseMulShow(ps[n].0, ps[n].1);
    }
  }

  /** The number of decimal digits that start `s[i..]`. */
  function DigitRun(s: string, i: nat): (n: nat)
    requires i <= |s|
    ensures i + n <= |s|
    ensures forall k :: i <= k < i + n ==> IsDigit(s[k])
    ensures i + n < |s| ==> !IsDigit(s[i + n])
    decreases |s| - i
  {
    if i < |s| && IsDigit(s[i]) then 1 + DigitRun(s, i + 1) else 0
  }

  /** A run of exactly `n` digits, followed by a non-digit, is what `DigitRun` measures. */
  lemma {:induction false} DigitRunExact(s: string, i: nat, n: nat)
    requires i + n < |s|
    requires forall k :: i <= k < i + n ==> IsDigit(s[k])
    requires !IsDigit(s[i + n])
    ensures DigitRun(s, i) == n
    decreases n
  {
    if n > 0 {
      DigitRunExact(s, i + 1, n - 1);
    }
  }

  /**
    The length of the match of `mul\(\d+,\d+\)` that starts at `i`, or 0 when none starts there.
    A digit run cannot be followed by a digit, so a match that starts at `i` is unique.
  */
  function MatchLen(s: string, i: nat): (n: nat)
    requires i <= |s|
    ensures i + n <= |s|
  {
    if i + 4 <= |s| && s[i..i + 4] == "mul(" then
      var a := DigitRun(s, i + 4);
      var j := i + 4 + a;
      if a > 0 && j < |s| && s[j] == ',' then
        var b := DigitRun(s, j + 1);
        var k := j + 1 + b;
        if b > 0 && k < |s| && s[k] == ')' then k + 1 - i else 0
      else 0
    else 0
  }

  /** A nonzero match length covers a whole match. */
  lemma MatchIsToken(s: string, i: nat)
    requires i <= |s| && MatchLen(s, i) > 0
    ensures IsMulToken(s[i..i + MatchLen(s, i)])
  {
    var a := DigitRun(s, i + 4);
    var j := i + 4 + a;
    var b := DigitRun(s, j + 1);
    var x, y := s[i + 4..j], s[j + 1..j + 1 + b];
    assert AllDigits(x) by {
      forall k | 0 <= k < |x| ensures IsDigit(x[k]) {
        assert x[k] == s[i + 4 + k];
      }
    }
    assert AllDigits(y) by {
      forall k | 0 <= k < |y| ensures IsDigit(y[k]) {
        assert y[k] == s[j + 1 + k];
      }
    }
    assert s[i..i + MatchLen(s, i)] == s[i..i + 4] + x + [s[j]] + y + [')'];
    assert MulParts(s[i..i + MatchLen(s, i)], x, y);
  }

  /** Nothing is missed: wherever a whole match starts, the scan measures exactly that match. */
  lemma TokenIsMatch(s: string, i: nat, j: nat, x: string, y: string)
    requires i <= j <= |s| && MulParts(s[i..j], x, y)
    ensures MatchLen(s, i) == j - i
  {
    var t := s[i..j];
    MulPartsAt(t, x, y);
    assert s[i..i + 4] == t[..4];
    forall k | i + 4 <= k < i + 4 + |x| ensures IsDigit(s[k]) {
      assert s[k] == t[k - i];
    }
    assert s[i + 4 + |x|] == t[4 + |x|];
    DigitRunExact(s, i + 4, |x|);
    var p := i + 5 + |x|;
    forall k | p <= k < p + |y| ensures IsDigit(s[k]) {
      assert s[k] == t[k - i];
    }
    assert s[p + |y|] == t[5 + |x| + |y|];
    DigitRunExact(s, p, |y|);
    MatchLenParts(s, i, |x|, |y|);
  }

  /** The characters of a token taken apart by `MulParts`, position by position. */
  lemma MulPartsAt(t: string, x: string, y: string)
    requires MulParts(t, x, y)
    ensures |t| == 6 + |x| + |y| && t[..4] == "mul("
    ensures forall k :: 4 <= k < 4 + |x| ==> IsDigit(t[k])
    ensures t[4 + |x|] == ','
    ensures forall k :: 5 + |x| <= k < 5 + |x| + |y| ==> IsDigit(t[k])
    ensures t[5 + |x| + |y|] == ')'
  {
    forall k | 4 <= k < 4 + |x| ensures IsDigit(t[k]) {
      assert t[k] == x[k - 4];
    }
    forall k | 5 + |x| <= k < 5 + |x| + |y| ensures IsDigit(t[k]) {
      assert t[k] == y[k - 5 - |x|];
    }
  }

  /** `MatchLen` read off its parts: the prefix, two digit runs and their delimiters. */
  lemma MatchLenParts(s: string, i: nat, a: nat, b: nat)
    requires i + 5 + a + b < |s| && s[i..i + 4] == "mul("
    requires a > 0 && DigitRun(s, i + 4) == a && s[i + 4 + a] == ','
    requires b > 0 && DigitRun(s, i + 5 + a) == b && s[i + 5 + a + b] == ')'
    ensures MatchLen(s, i) == 6 + a + b
  {
  }

  /** The leftmost non-overlapping matches in `s[i..]`, in order. */
  function Matches(s: string, i: nat): (r: seq<string>)
    requires i <= |s|
    ensures forall k :: 0 <= k < |r| ==> IsMulToken(r[k])
    decreases |s| - i
  {
    if i == |s| then []
    else
      var n := MatchLen(s, i);
      if n > 0 then
        MatchIsToken(s, i);
        [s[i..i + n]] + Matches(s, i + n)
      else Matches(s, i + 1)
  }

  /**
    `parse_string`: the matches of `mul\(\d+,\d+\)` in `input`, left to right. Every result is a
    whole match, so `parse_mul` is defined on it (ParseStringParses).
  */
  function ParseString(input: string): (r: seq<string>)
    ensures forall k :: 0 <= k < |r| ==> IsMulToken(r[k])
  {
    Matches(input, 0)
  }

  /** Everything `parse_string` returns is accepted by `parse_mul`, so the two compose without a panic. */
  lemma ParseStringParses(input: string)
    ensures AllParse(ParseString(input))
  {
    var r := ParseString(input);
    forall k | 0 <= k < |r| ensures ParseMulDefined(r[k]) {
      var x, y :| MulParts(r[k], x, y);
      ParseMulToken(r[k], x, y);
    }
  }

  /** A stretch of text without an `m` holds no match: the scan passes over it. */
  lemma {:induction false} MatchesSkip(s: string, i: nat, j: nat)
    requires i <= j <= |s|
    requires forall k :: i <= k < j ==> s[k] != 'm'
    ensures Matches(s, i) == Matches(s, j)
    decreases j - i
  {
    if i < j {
      assert MatchLen(s, i) == 0 by {
        if i + 4 <= |s| {
          assert s[i..i + 4][0] == s[i];
        }
      }
      MatchesSkip(s, i + 1, j);
    }
  }

  /** Where a whole match starts, the scan takes exactly it and goes on after it. */
  lemma MatchesAtToken(s: string, i: nat, j: nat, x: string, y: string)
    requires i < j <= |s| && MulParts(s[i..j], x, y)
    ensures Matches(s, i) == [s[i..j]] + Matches(s, j)
  {
    TokenIsMatch(s, i, j, x, y);
    MatchesAt(s, i, j);
  }

  /** A match at `i` ending at `j` is listed first, and the scan resumes at `j`. */
  lemma MatchesAt(s: string, i: nat, j: nat)
    requires i < j <= |s| && MatchLen(s, i) == j - i
    ensures Matches(s, i) == [s[i..j]] + Matches(s, j)
  {
  }

  /** The text of a single instruction is one match. */
  lemma MatchesSingle(x: int, y: int)
    requires x >= 0 && y >= 0
    ensures ParseString("mul(" + Show(x) + "," + Show(y) + ")") == ["mul(" + Show(x) + "," + Show(y) + ")"]
  {
    var s := "mul(" + Show(x) + "," + Show(y) + ")";
    assert AllDigits(Show(x)) && AllDigits(Show(y));
    assert s[0..|s|] == s;
    assert MulParts(s[0..|s|], Show(x), Show(y));
    TokenIsMatch(s, 0, |s|, Show(x), Show(y));
    assert Matches(s, 0) == [s[0..|s|]] + Matches(s, |s|);
  }
}
