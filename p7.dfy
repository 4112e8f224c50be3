/**
  Day 7 library (p7/src/lib.rs): can a target be reached by combining the operands from left to
  right with `+`, `*` and, in part two, decimal concatenation? The solver works backwards from
  the target, undoing the last operand.
*/
module P7 {
  import opened Wrappers
  import opened Text

  /** Every operand after the first is positive (the inputs are positive; a zero would make `%` panic). */
  predicate Operands(ops: seq<int>) {
    |ops| > 0 && forall i :: 1 <= i < |ops| ==> ops[i] > 0
  }

  /**
    `resolve_computation`: a negative target is unreachable; one operand reaches only itself;
    otherwise the operands without the last reach `target - last`, or `last` divides the target
    and they reach `target / last`. The target is never negative where `%` and `/` are used,
    so Dafny's Euclidean operators agree with Rust's truncating ones.
  */
  function Resolve(ops: seq<int>, target: int): bool
    requires Operands(ops)
    decreases |ops|
  {
    if target < 0 then false
    else if |ops| == 1 then ops[0] == target
    else
      var rest := ops[..|ops| - 1];
      var last := ops[|ops| - 1];
      Resolve(rest, target - last) || (target % last == 0 && Resolve(rest, target / last))
  }

  /** The number of decimal digits of a positive number: `ilog10(d) + 1`. */
  function Digits(d: int): (k: nat)
    requires d > 0
    ensures k >= 1
  {
    if d < 10 then 1 else 1 + Digits(d / 10)
  }

  function Pow10(k: nat): (p: nat)
    ensures p >= 1
  {
    if k == 0 then 1 else 10 * Pow10(k - 1)
  }

  /** `d` has `Digits(d)` digits: it lies between `10^(k-1)` and `10^k`. */
  lemma {:induction false} DigitsBounds(d: int)
    requires d > 0
    ensures Pow10(Digits(d) - 1) <= d < Pow10(Digits(d))
  {
    if d >= 10 {
      DigitsBounds(d / 10);
    }
  }

  /** `Digits` counts the characters of the decimal form. */
  lemma {:induction false} DigitsShow(d: int)
    requires d > 0
    ensures |ShowNat(d)| == Digits(d)
  {
    if d >= 10 {
      DigitsShow(d / 10);
    }
  }

  /** `v` followed by the digits of `x`. */
  function Concat(v: int, x: int): int
    requires x > 0
  {
    v * Pow10(Digits(x)) + x
  }

  /** The value of two digit strings written one after the other. */
  lemma {:induction false} DigitsValueAppend(a: string, b: string)
    requires AllDigits(a) && AllDigits(b)
    ensures DigitsValue(a + b) == DigitsValue(a) * Pow10(|b|) + DigitsValue(b)
  {
    if b != [] {
      var n := |b| - 1;
      assert (a + b)[..|a + b| - 1] == a + b[..n];
      DigitsValueAppend(a, b[..n]);
      assert DigitsValue(a + b) == 10 * DigitsValue(a + b[..n]) + DigitValue(b[n]);
      assert DigitsValue(b) == 10 * DigitsValue(b[..n]) + DigitValue(b[n]);
      Regroup(DigitsValue(a), Pow10(n), DigitsValue(b[..n]), DigitValue(b[n]));
    } else {
      assert a + b == a;
    }
  }

  lemma Regroup(a: int, p: int, c: int, e: int)
    ensures 10 * (a * p + c) + e == a * (10 * p) + (10 * c + e)
  {
  }

  /** `Concat` is the concatenation of the decimal forms. */
  lemma ConcatIsDecimal(v: nat, x: int)
    requires x > 0
    ensures DigitsValue(ShowNat(v) + ShowNat(x)) == Concat(v, x)
  {
    DigitsValueAppend(ShowNat(v), ShowNat(x));
    DigitsValueShowNat(v);
    DigitsValueShowNat(x);
    DigitsShow(x);
  }

  /** Why `concatenated_target` rejects a target. */
  datatype TargetError = NotValid | TooSmall

  /**
    `concatenated_target` as written: subtract `d`, reject when the difference is not a
    multiple of 10 or is negative, then drop `Digits(d)` decimal digits. `ilog` panics when
    `d <= 0` is reached.
  */
  function TargetAsWritten(d: int, t: int): Result<int, TargetError>
    requires (t - d) % 10 == 0 && t - d >= 0 ==> d > 0
  {
    if (t - d) % 10 != 0 then Err(NotValid)
    else if t - d < 0 then Err(TooSmall)
    else Ok((t - d) / Pow10(Digits(d)))
  }

  /**
    `concatenated_target` corrected: the difference must be a multiple of `10^Digits(d)`, that
    is, the target must end in the digits of `d`. The two earlier checks are kept, so the
    errors reported for the unit tests are the same.
  */
  function ConcatTarget(d: int, t: int): Result<int, TargetError>
    requires d > 0
  {
    if (t - d) % 10 != 0 then Err(NotValid)
    else if t - d < 0 then Err(TooSmall)
    else if (t - d) % Pow10(Digits(d)) != 0 then Err(NotValid)
    else Ok((t - d) / Pow10(Digits(d)))
  }

  lemma MulMod(v: int, p: int)
    requires p > 0
    ensures (v * p) % p == 0 && (v * p) / p == v
  {
    DivUnique(v * p, p, v, 0);
  }

  /** Euclidean division is unique. */
  lemma DivUnique(a: int, b: int, q: int, r: int)
    requires b > 0 && 0 <= r < b && a == b * q + r
    ensures a / b == q && a % b == r
  {
    var q', r' := a / b, a % b;
    assert b * (q - q') == r' - r;
    if q' < q {
      MulAtLeast(b, q - q');
    } else if q' > q {
      MulAtLeast(b, q' - q);
    }
  }

  lemma MulAtLeast(b: int, k: int)
    requires b > 0 && k >= 1
    ensures b * k >= b
  {
  }

  /** A multiple of `10^k` with `k >= 1` is a multiple of 10. */
  lemma MultipleOfTen(v: int, k: nat)
    requires k >= 1
    ensures (v * Pow10(k)) % 10 == 0
  {
    assert v * Pow10(k) == (v * Pow10(k - 1)) * 10;
    MulMod(v * Pow10(k - 1), 10);
  }

  /** The corrected `concatenated_target` undoes exactly a concatenation: `Ok(v)` iff `t` is `v` followed by the digits of `d`. */
  lemma ConcatTargetIff(d: int, t: int, v: int)
    requires d > 0
    ensures ConcatTarget(d, t) == Ok(v) <==> v >= 0 && Concat(v, d) == t
  {
    var p := Pow10(Digits(d));
    if ConcatTarget(d, t) == Ok(v) {
      assert t - d == p * ((t - d) / p) + (t - d) % p;
      DivUnique(t - d, p, (t - d) / p, 0);
    }
    if v >= 0 && Concat(v, d) == t {
      MulMod(v, p);
      MultipleOfTen(v, Digits(d));
    }
  }

  /** The corrected `concatenated_target` never returns a negative target. */
  lemma ConcatTargetNonNegative(d: int, t: int)
    requires d > 0
    ensures ConcatTarget(d, t).Ok? ==> ConcatTarget(d, t).value >= 0
  {
  }

  /** The tests of `concatenated_target`, which the digit test as written passes. */
  lemma TargetAsWrittenTests()
    ensures TargetAsWritten(6, 486) == Ok(48)
    ensures TargetAsWritten(1, 1) == Ok(0)
    ensures TargetAsWritten(187192, 25187192) == Ok(25)
    ensures TargetAsWritten(123, 456) == Err(NotValid)
    ensures TargetAsWritten(123, 23) == Err(TooSmall)
  {
    assert Digits(6) == 1;
    assert Digits(187192) == 6;
  }

  /** The digit test as written accepts 122 as `1` followed by `12`, and 22 as `0` followed by `12`. */
  lemma TargetAsWrittenNotConcat()
    ensures TargetAsWritten(12, 122) == Ok(1) && Concat(1, 12) != 122
    ensures TargetAsWritten(12, 22) == Ok(0) && Concat(0, 12) != 22
  {
    assert Digits(12) == 2;
  }

  /** The corrected check gives the same results on the tests, and rejects the two targets above. */
  lemma ConcatTargetTests()
    ensures ConcatTarget(6, 486) == Ok(48)
    ensures ConcatTarget(1, 1) == Ok(0)
    ensures ConcatTarget(187192, 25187192) == Ok(25)
    ensures ConcatTarget(123, 456) == Err(NotValid)
    ensures ConcatTarget(123, 23) == Err(TooSmall)
    ensures ConcatTarget(12, 122) == Err(NotValid) && ConcatTarget(12, 22) == Err(NotValid)
  {
    assert Digits(6) == 1;
    assert Digits(187192) == 6;
    assert Digits(12) == 2;
  }

  /** `concatenated_target` as written, with its loop dividing by 10 once per digit of `d`. */
  method ConcatenatedTarget(dividend: int, target: int) returns (r: Result<int, TargetError>)
    requires (target - dividend) % 10 == 0 && target - dividend >= 0 ==> dividend > 0
    ensures r == TargetAsWritten(dividend, target)
  {
    var newTarget := target - dividend;
    if newTarget % 10 != 0 {
      return Err(NotValid);
    }
    if newTarget < 0 {
      return Err(TooSmall);
    }
    var digits := Digits(dividend);
    for i := 0 to digits
      invariant newTarget == (target - dividend) / Pow10(i)
    {
      DivDiv(target - dividend, Pow10(i));
      newTarget := newTarget / 10;
    }
    r := Ok(newTarget);
  }

  /** Dividing by `m` and then by 10 is dividing by `10 * m`. */
  lemma DivDiv(a: int, m: int)
    requires a >= 0 && m > 0
    ensures a / m / 10 == a / (10 * m)
  {
    var q, r := a / m, a % m;
    var q2, r2 := q / 10, q % 10;
    assert a == m * q + r;
    assert q == 10 * q2 + r2;
    assert a == (10 * m) * q2 + (m * r2 + r) by {
      Distribute(m, q2, r2, r);
    }
    assert m * r2 + r < 10 * m by {
      assert m * r2 <= m * 9 by { MulMonotone(m, r2, 9); }
    }
    assert 0 <= m * r2;
    DivUnique(a, 10 * m, q2, m * r2 + r);
  }

  lemma Distribute(m: int, q2: int, r2: int, r: int)
    ensures m * (10 * q2 + r2) + r == (10 * m) * q2 + (m * r2 + r)
  {
  }

  lemma MulMonotone(m: int, a: int, b: int)
    requires m > 0 && a <= b
    ensures m * a <= m * b
  {
  }

  /**
    `resolve_computation_concatenate`: the branches of `resolve_computation`, then undoing a
    concatenation with the last operand. This is the corrected model; the as-written one is
    `ResolveConcatenateAsWritten`.
  */
  function ResolveConcatenate(ops: seq<int>, target: int): bool
    requires Operands(ops)
    decreases |ops|
  {
    if target < 0 then false
    else if |ops| == 1 then ops[0] == target
    else
      var rest := ops[..|ops| - 1];
      var last := ops[|ops| - 1];
      || ResolveConcatenate(rest, target - last)
      || (target % last == 0 && ResolveConcatenate(rest, target / last))
      || (match ConcatTarget(last, target)
          case Ok(v) => ResolveConcatenate(rest, v)
          case Err(_) => false)
  }

  /** `resolve_computation_concatenate` as written, with the test that looks at one digit only. */
  function ResolveConcatenateAsWritten(ops: seq<int>, target: int): bool
    requires Operands(ops)
    decreases |ops|
  {
    if target < 0 then false
    else if |ops| == 1 then ops[0] == target
    else
      var rest := ops[..|ops| - 1];
      var last := ops[|ops| - 1];
      || ResolveConcatenateAsWritten(rest, target - last)
      || (target % last == 0 && ResolveConcatenateAsWritten(rest, target / last))
      || (match TargetAsWritten(last, target)
          case Ok(v) => ResolveConcatenateAsWritten(rest, v)
          case Err(_) => false)
  }

  /**
    The values the operands produce, combined from left to right with `+` and `*` (and
    concatenation when `withConcat`); the independent reference for the solvers.
  */
  function Values(ops: seq<int>, withConcat: bool): set<int>
    requires Operands(ops)
    decreases |ops|
  {
    if |ops| == 1 then {ops[0]}
    else
      var prev := Values(ops[..|ops| - 1], withConcat);
      var x := ops[|ops| - 1];
      (set v | v in prev :: v + x) + (set v | v in prev :: v * x)
        + (if withConcat then set v | v in prev :: Concat(v, x) else {})
  }

  /** With a non-negative first operand, every value is non-negative. */
  lemma {:induction false} ValuesNonNegative(ops: seq<int>, withConcat: bool)
    requires Operands(ops) && ops[0] >= 0
    ensures forall v :: v in Values(ops, withConcat) ==> v >= 0
  {
    if |ops| > 1 {
      var rest := ops[..|ops| - 1];
      var x := ops[|ops| - 1];
      assert Operands(rest) && rest[0] == ops[0];
      ValuesNonNegative(rest, withConcat);
      forall v | v in Values(rest, withConcat) ensures v * x >= 0 && (withConcat ==> Concat(v, x) >= 0) {
        MulNonNegative(v, x);
        MulNonNegative(v, Pow10(Digits(x)));
      }
    }
  }

  lemma MulNonNegative(a: int, b: int)
    requires a >= 0 && b >= 0
    ensures a * b >= 0
  {
  }

  /** The product `v * x` is reached backwards by dividing the target by `x`. */
  lemma UndoProduct(t: int, x: int, v: int)
    requires x > 0
    ensures t == v * x <==> t % x == 0 && t / x == v
  {
    if t == v * x {
      MulMod(v, x);
    }
    if t % x == 0 && t / x == v {
      assert t == x * (t / x) + t % x;
    }
  }

  /** Membership in `Values`, read backwards: undo the last operand by subtraction, division or removing its digits. */
  lemma ValuesBackward(ops: seq<int>, withConcat: bool, t: int)
    requires Operands(ops) && ops[0] >= 0 && |ops| > 1
    ensures var prev, x := Values(ops[..|ops| - 1], withConcat), ops[|ops| - 1];
      t in Values(ops, withConcat) <==>
        || t - x in prev
        || (t % x == 0 && t / x in prev)
        || (withConcat && ConcatTarget(x, t).Ok? && ConcatTarget(x, t).value in prev)
  {
    var rest := ops[..|ops| - 1];
    var x := ops[|ops| - 1];
    assert Operands(rest) && rest[0] == ops[0];
    var prev := Values(rest, withConcat);
    ValuesNonNegative(rest, withConcat);
    InProducts(prev, x, t);
    if withConcat {
      InConcats(prev, x, t);
    }
  }

  lemma InProducts(prev: set<int>, x: int, t: int)
    requires x > 0
    ensures t in (set v | v in prev :: v * x) <==> t % x == 0 && t / x in prev
  {
    if t in (set v | v in prev :: v * x) {
      var v :| v in prev && t == v * x;
      UndoProduct(t, x, v);
    }
    if t % x == 0 && t / x in prev {
      UndoProduct(t, x, t / x);
    }
  }

  lemma InConcats(prev: set<int>, x: int, t: int)
    requires x > 0 && forall v :: v in prev ==> v >= 0
    ensures t in (set v | v in prev :: Concat(v, x)) <==> ConcatTarget(x, t).Ok? && ConcatTarget(x, t).value in prev
  {
    if t in (set v | v in prev :: Concat(v, x)) {
      var v :| v in prev && t == Concat(v, x);
      ConcatTargetIff(x, t, v);
    }
    if ConcatTarget(x, t).Ok? {
      ConcatTargetIff(x, t, ConcatTarget(x, t).value);
    }
  }

  /** `resolve_computation` is right: it says yes exactly for the values `+` and `*` produce. */
  lemma {:induction false} ResolveValues(ops: seq<int>, t: int)
    requires Operands(ops) && ops[0] >= 0
    ensures Resolve(ops, t) <==> t in Values(ops, false)
    decreases |ops|
  {
    ValuesNonNegative(ops, false);
    if |ops| > 1 {
      var rest := ops[..|ops| - 1];
      var x := ops[|ops| - 1];
      assert Operands(rest) && rest[0] == ops[0];
      ValuesBackward(ops, false, t);
      ResolveValues(rest, t - x);
      if t % x == 0 {
        ResolveValues(rest, t / x);
      }
    }
  }

  /** `resolve_computation_concatenate` (corrected) is right: it says yes exactly for the values `+`, `*` and concatenation produce. */
  lemma {:induction false} ResolveConcatenateValues(ops: seq<int>, t: int)
    requires Operands(ops) && ops[0] >= 0
    ensures ResolveConcatenate(ops, t) <==> t in Values(ops, true)
    decreases |ops|
  {
    ValuesNonNegative(ops, true);
    if |ops| > 1 {
      var rest := ops[..|ops| - 1];
      var x := ops[|ops| - 1];
      assert Operands(rest) && rest[0] == ops[0];
      ValuesBackward(ops, true, t);
      ResolveConcatenateValues(rest, t - x);
      if t % x == 0 {
        ResolveConcatenateValues(rest, t / x);
      }
      if ConcatTarget(x, t).Ok? {
        ResolveConcatenateValues(rest, ConcatTarget(x, t).value);
      }
    }
  }

  /** Whatever `+` and `*` reach, the concatenating solver reaches too: its first two branches are those of `resolve_computation`. */
  lemma {:induction false} ResolveImpliesConcatenate(ops: seq<int>, t: int)
    requires Operands(ops)
    ensures Resolve(ops, t) ==> ResolveConcatenate(ops, t)
    decreases |ops|
  {
    if |ops| > 1 && t >= 0 {
      var rest := ops[..|ops| - 1];
      var x := ops[|ops| - 1];
      ResolveImpliesConcatenate(rest, t - x);
      if t % x == 0 {
        ResolveImpliesConcatenate(rest, t / x);
      }
    }
  }

  /** As written, `[1, 12]` is said to reach 122 by concatenation; the corrected solver says no. */
  lemma AsWrittenAcceptsUnreachable()
    ensures ResolveConcatenateAsWritten([1, 12], 122)
    ensures !ResolveConcatenate([1, 12], 122)
  {
    assert [1, 12][..1] == [1];
    assert Digits(12) == 2;
  }

  /** No combination of 1 and 12 gives 122: the values are 13, 12 and 112. */
  lemma Unreachable122()
    ensures Values([1, 12], true) == {13, 12, 112}
    ensures 122 !in Values([1, 12], true)
  {
    assert [1, 12][..1] == [1];
    assert Digits(12) == 2;
    assert Values([1], true) == {1};
  }

  /** `parse_input` panics unless it finds a `:`, an integer before it and integers after it. */
  predicate ParseInputDefined(line: string) {
    var parts := Split(line, ':');
    && |parts| >= 2
    && ParseInt(Trim(parts[0])).Some?
    && forall i :: 0 <= i < |SplitWhitespace(parts[1])| ==> ParseInt(SplitWhitespace(parts[1])[i]).Some?
  }

  /** `parse_input`: the trimmed number before the first `:`, and the whitespace-separated numbers after it (up to any second `:`). */
  function ParseInput(line: string): (r: (int, seq<int>))
    requires ParseInputDefined(line)
    ensures var ws := SplitWhitespace(Split(line, ':')[1]);
      |r.1| == |ws| && forall i :: 0 <= i < |ws| ==> ParseInt(ws[i]) == Some(r.1[i])
    ensures ParseInt(Trim(Split(line, ':')[0])) == Some(r.0)
  {
    var parts := Split(line, ':');
    var ws := SplitWhitespace(parts[1]);
    (ParseInt(Trim(parts[0])).value, seq(|ws|, i requires 0 <= i < |ws| => ParseInt(ws[i]).value))
  }

  /** Printed integers separated by single spaces hold no `c` that is neither a digit, a minus sign nor a space. */
  lemma {:induction false} JoinSpacedAvoids(ns: seq<int>, c: char)
    requires |ns| > 0 && !IsDigit(c) && c != '-' && c != ' '
    ensures c !in JoinSpaced(ns)
  {
    ShowAvoids(ns[0], c);
    if |ns| > 1 {
      JoinSpacedAvoids(ns[1..], c);
    }
  }

  /** The line splits at its one `:` into the printed target and the printed operands. */
  lemma SplitProblemLine(t: int, ops: seq<int>)
    requires |ops| > 0
    ensures Split(Show(t) + ": " + JoinSpaced(ops), ':') == [Show(t), " " + JoinSpaced(ops)]
  {
    ShowAvoids(t, ':');
    JoinSpacedAvoids(ops, ':');
    SplitColon(Show(t), JoinSpaced(ops));
  }

  lemma SplitColon(a: string, b: string)
    requires ':' !in a && ':' !in b
    ensures Split(a + ": " + b, ':') == [a, " " + b]
  {
    assert a + ": " + b == a + [':'] + (" " + b);
    SplitOnce(a, ':', " " + b);
  }

  /** A line `T: a b c` as the puzzle prints it parses back into its target and operands. */
  lemma ParseInputRoundTrip(t: int, ops: seq<int>)
    requires |ops| > 0
    ensures ParseInputDefined(Show(t) + ": " + JoinSpaced(ops))
    ensures ParseInput(Show(t) + ": " + JoinSpaced(ops)) == (t, ops)
  {
    var line := Show(t) + ": " + JoinSpaced(ops);
    SplitProblemLine(t, ops);
    TrimShow(t);
    ParseIntShow(t);
    SplitWhitespaceSpaced(ops);
    var ws := SplitWhitespace(" " + JoinSpaced(ops));
    forall i | 0 <= i < |ops| ensures ParseInt(ws[i]) == Some(ops[i]) {
      ParseIntShow(ops[i]);
    }
    var r := ParseInput(line);
    assert r.1 == ops;
  }

  /** The problems of the input, one per line. */
  function Problems(input: string): (ps: seq<(int, seq<int>)>)
    requires forall i :: 0 <= i < |Lines(input)| ==> ParseInputDefined(Lines(input)[i])
    ensures |ps| == |Lines(input)| && forall i :: 0 <= i < |ps| ==> ps[i] == ParseInput(Lines(input)[i])
  {
    var ls := Lines(input);
    seq(|ls|, i requires 0 <= i < |ls| => ParseInput(ls[i]))
  }

  /** Every problem has operands the solvers accept. */
  predicate Solvable(ps: seq<(int, seq<int>)>) {
    forall i :: 0 <= i < |ps| ==> Operands(ps[i].1)
  }

  /** The sum of the targets that the solver (with concatenation when `withConcat`) says are reachable. */
  function Calibration(ps: seq<(int, seq<int>)>, withConcat: bool): int
    requires Solvable(ps)
  {
    if ps == [] then 0
    else
      var (t, ops) := ps[|ps| - 1];
      Calibration(ps[..|ps| - 1], withConcat)
        + (if (if withConcat then ResolveConcatenate(ops, t) else Resolve(ops, t)) then t else 0)
  }

  /** Concatenation only adds reachable targets, and every reachable target is non-negative, so part two's sum is at least part one's. */
  lemma {:induction false} CalibrationGrows(ps: seq<(int, seq<int>)>)
    requires Solvable(ps)
    ensures 0 <= Calibration(ps, false) <= Calibration(ps, true)
  {
    if ps != [] {
      var (t, ops) := ps[|ps| - 1];
      CalibrationGrows(ps[..|ps| - 1]);
      ResolveImpliesConcatenate(ops, t);
    }
  }

  /** `solution_one`: parse each line and add up the targets `resolve_computation` reaches. */
  method SolutionOne(input: string) returns (result: int)
    requires forall i :: 0 <= i < |Lines(input)| ==> ParseInputDefined(Lines(input)[i])
    requires Solvable(Problems(input))
    ensures result == Calibration(Problems(input), false)
  {
    var ls := Lines(input);
    ghost var ps := Problems(input);
    result := 0;
    for i := 0 to |ls|
      invariant result == Calibration(ps[..i], false)
    {
      var problem := ParseInput(ls[i]);
      assert ps[..i + 1][..i] == ps[..i];
      if Resolve(problem.1, problem.0) {
        result := result + problem.0;
      }
    }
    assert ps[..|ls|] == ps;
  }

  /** `solution_two`: the same with `resolve_computation_concatenate`. */
  method SolutionTwo(input: string) returns (result: int)
    requires forall i :: 0 <= i < |Lines(input)| ==> ParseInputDefined(Lines(input)[i])
    requires Solvable(Problems(input))
    ensures result == Calibration(Problems(input), true)
  {
    var ls := Lines(input);
    ghost var ps := Problems(input);
    result := 0;
    for i := 0 to |ls|
      invariant result == Calibration(ps[..i], true)
    {
      var problem := ParseInput(ls[i]);
      assert ps[..i + 1][..i] == ps[..i];
      if ResolveConcatenate(problem.1, problem.0) {
        result := result + problem.0;
      }
    }
    assert ps[..|ls|] == ps;
  }
}
