/**
  The parts of Rust's `str` API and integer parsing that the solvers rely on, stated over
  `string` (a sequence of characters; every input is taken to be ASCII, so a byte index and a
  character index coincide).
*/
module Text {
  import opened Wrappers

  predicate IsDigit(c: char) {
    '0' <= c <= '9'
  }

  function DigitValue(c: char): (v: nat)
    requires IsDigit(c)
    ensures v < 10
  {
    (c as int) - ('0' as int)
  }

  function DigitChar(v: nat): (c: char)
    requires v < 10
    ensures IsDigit(c) && DigitValue(c) == v
  {
    (('0' as int) + v) as char
  }

  predicate AllDigits(s: string) {
    forall i :: 0 <= i < |s| ==> IsDigit(s[i])
  }

  /** The value of a string of decimal digits, most significant digit first. */
  function DigitsValue(s: string): nat
    requires AllDigits(s)
    decreases |s|
  {
    if s == [] then 0 else 10 * DigitsValue(s[..|s| - 1]) + DigitValue(s[|s| - 1])
  }

  /**
    `str::parse` for a signed integer type: an optional `+` or `-`, then one or more ASCII
    digits; anything else is an error (`None`). The bound of the integer type is not modelled.
  */
  function ParseInt(s: string): Option<int> {
    if |s| > 0 && (s[0] == '-' || s[0] == '+') then
      if |s| > 1 && AllDigits(s[1..]) then
        var v: int := DigitsValue(s[1..]);
        Some(if s[0] == '-' then -v else v)
      else None
    else if |s| > 0 && AllDigits(s) then Some(DigitsValue(s))
    else None
  }

  /** The decimal form of a natural number, as Rust's `Display` writes it. */
  function ShowNat(n: nat): (s: string)
    ensures |s| > 0 && AllDigits(s)
  {
    if n < 10 then [DigitChar(n)] else ShowNat(n / 10) + [DigitChar(n % 10)]
  }

  /** The decimal form of an integer, with a leading `-` when it is negative. */
  function Show(n: int): string {
    if n < 0 then "-" + ShowNat(-n) else ShowNat(n)
  }

  lemma {:induction false} DigitsValueShowNat(n: nat)
    ensures DigitsValue(ShowNat(n)) == n
  {
    if n >= 10 {
      var s := ShowNat(n);
      assert s[..|s| - 1] == ShowNat(n / 10);
      DigitsValueShowNat(n / 10);
    }
  }

  /** Printing an integer and parsing it back gives the integer. */
  lemma ParseIntShow(n: int)
    ensures ParseInt(Show(n)) == Some(n)
  {
    if n < 0 {
      DigitsValueShowNat(-n);
      assert Show(n)[1..] == ShowNat(-n);
    } else {
      DigitsValueShowNat(n);
    }
  }

  /** Every character of a printed integer is a digit or its leading minus sign. */
  lemma ShowChars(n: int, i: int)
    requires 0 <= i < |Show(n)|
    ensures IsDigit(Show(n)[i]) || (i == 0 && Show(n)[i] == '-')
  {
    if n < 0 {
      assert i > 0 ==> Show(n)[i] == ShowNat(-n)[i - 1];
    }
  }

  /** A printed integer holds no character other than digits and a minus sign. */
  lemma ShowAvoids(n: int, c: char)
    requires !IsDigit(c) && c != '-'
    ensures c !in Show(n)
  {
    forall i | 0 <= i < |Show(n)| ensures Show(n)[i] != c {
      ShowChars(n, i);
    }
  }

  /** The integers printed in decimal, with one space between neighbours. */
  function JoinSpaced(ns: seq<int>): string
    requires |ns| > 0
  {
    if |ns| == 1 then Show(ns[0]) else Show(ns[0]) + " " + JoinSpaced(ns[1..])
  }

  /** `sep` occurs in `s` starting at index `j`. */
  predicate OccursAt(s: string, sep: string, j: int) {
    0 <= j && j + |sep| <= |s| && s[j..j + |sep|] == sep
  }

  lemma OccursAtTail(s: string, sep: string, j: int)
    requires |s| > 0 && j >= 1
    ensures OccursAt(s, sep, j) == OccursAt(s[1..], sep, j - 1)
  {
    if j + |sep| <= |s| {
      assert s[j..j + |sep|] == s[1..][j - 1..j - 1 + |sep|];
    }
  }

  /** The first index at which `sep` occurs in `s`, or `|s|` when it does not occur. */
  function Find(s: string, sep: string): (k: nat)
    requires |sep| > 0
    ensures k <= |s|
    ensures k < |s| ==> OccursAt(s, sep, k)
    ensures forall j :: 0 <= j < k ==> !OccursAt(s, sep, j)
    decreases |s|
  {
    if |s| < |sep| then |s|
    else if s[..|sep|] == sep then 0
    else
      var k := 1 + Find(s[1..], sep);
      assert forall j :: 1 <= j < k ==> OccursAt(s, sep, j) == OccursAt(s[1..], sep, j - 1) by {
        forall j | 1 <= j < k {
          OccursAtTail(s, sep, j);
        }
      }
      k
  }

  /** `str::split(&str)`: the pieces between the non-overlapping occurrences of `sep`, left to right. */
  function SplitStr(s: string, sep: string): (r: seq<string>)
    requires |sep| > 0
    ensures |r| > 0
    decreases |s|
  {
    var k := Find(s, sep);
    if k == |s| then [s] else [s[..k]] + SplitStr(s[k + |sep|..], sep)
  }

  /** `str::split(char)`. */
  function Split(s: string, sep: char): seq<string> {
    SplitStr(s, [sep])
  }

  lemma FindChar(a: string, c: char, b: string)
    requires c !in a
    ensures Find(a + [c] + b, [c]) == |a|
    ensures Find(a, [c]) == |a|
  {
    var s := a + [c] + b;
    assert OccursAt(s, [c], |a|);
    forall j | 0 <= j < |a| ensures !OccursAt(s, [c], j) && !OccursAt(a, [c], j) {
      assert s[j..j + 1] == [a[j]];
      assert a[j..j + 1] == [a[j]];
    }
  }

  /** A string without the separator is a single piece. */
  lemma SplitWithout(a: string, c: char)
    requires c !in a
    ensures Split(a, c) == [a]
  {
    FindChar(a, c, []);
  }

  /** A separator after a separator-free prefix cuts off exactly that prefix. */
  lemma SplitAt(a: string, c: char, b: string)
    requires c !in a
    ensures Split(a + [c] + b, c) == [a] + Split(b, c)
  {
    FindChar(a, c, b);
    var s := a + [c] + b;
    assert s[..|a|] == a;
    assert s[|a| + 1..] == b;
  }

  /** A string with exactly one separator splits into the two sides. */
  lemma SplitOnce(a: string, c: char, b: string)
    requires c !in a && c !in b
    ensures Split(a + [c] + b, c) == [a, b]
  {
    SplitAt(a, c, b);
    SplitWithout(b, c);
  }

  /** A `\r` that ends a line (just before its `\n`) is not part of the line. */
  function StripCR(line: string): string {
    if |line| > 0 && line[|line| - 1] == '\r' then line[..|line| - 1] else line
  }

  /**
    `str::lines()`: the pieces between the `\n` characters, each without a `\r` that ends it;
    a final `\n` does not start another line, so the empty string has no lines.
  */
  function Lines(s: string): (r: seq<string>)
    ensures forall i :: 0 <= i < |r| ==> '\n' !in r[i]
    decreases |s|
  {
    if s == [] then []
    else
      var k := Find(s, "\n");
      NoNewlineBefore(s, k);
      if k == |s| then [s] else [StripCR(s[..k])] + Lines(s[k + 1..])
  }

  lemma NoNewlineBefore(s: string, k: nat)
    requires k == Find(s, "\n")
    ensures '\n' !in s[..k]
  {
    forall j | 0 <= j < k ensures s[j] != '\n' {
      assert !OccursAt(s, "\n", j);
      assert s[j..j + 1] == [s[j]];
    }
  }

  /** The lines joined by `\n`, without a final `\n`. */
  function JoinLines(ls: seq<string>): string {
    if |ls| == 0 then ""
    else if |ls| == 1 then ls[0]
    else ls[0] + "\n" + JoinLines(ls[1..])
  }

  predicate PlainLine(l: string) {
    |l| > 0 && '\n' !in l && l[|l| - 1] != '\r'
  }

  /** Splitting joined lines gives the lines back. */
  lemma {:induction false} LinesJoinLines(ls: seq<string>)
    requires forall i :: 0 <= i < |ls| ==> PlainLine(ls[i])
    ensures Lines(JoinLines(ls)) == ls
  {
    if |ls| == 1 {
      FindChar(ls[0], '\n', []);
    } else if |ls| > 1 {
      var s := JoinLines(ls);
      assert s == ls[0] + ['\n'] + JoinLines(ls[1..]);
      FindChar(ls[0], '\n', JoinLines(ls[1..]));
      assert s[..|ls[0]|] == ls[0];
      assert s[|ls[0]| + 1..] == JoinLines(ls[1..]);
      LinesJoinLines(ls[1..]);
    }
  }

  /** Joined lines hold a character other than `\n` only where one of the lines holds it. */
  lemma {:induction false} JoinLinesAvoids(ls: seq<string>, c: char)
    requires c != '\n'
    requires forall i :: 0 <= i < |ls| ==> c !in ls[i]
    ensures c !in JoinLines(ls)
  {
    if |ls| > 1 {
      JoinLinesAvoids(ls[1..], c);
    }
  }

  /** Joined plain lines start with the first line's first character and end with the last line's last character. */
  lemma {:induction false} JoinLinesEnds(ls: seq<string>)
    requires |ls| > 0
    requires forall i :: 0 <= i < |ls| ==> PlainLine(ls[i])
    ensures |JoinLines(ls)| > 0 && |ls[0]| > 0 && JoinLines(ls)[0] == ls[0][0]
    ensures |ls[|ls| - 1]| > 0 && JoinLines(ls)[|JoinLines(ls)| - 1] == ls[|ls| - 1][|ls[|ls| - 1]| - 1]
  {
    assert PlainLine(ls[0]) && PlainLine(ls[|ls| - 1]);
    if |ls| > 1 {
      JoinLinesEnds(ls[1..]);
    }
  }

  /** Plain lines joined by single newlines never hold two newlines in a row. */
  lemma {:induction false} NoBlankLine(ls: seq<string>, j: int)
    requires forall i :: 0 <= i < |ls| ==> PlainLine(ls[i])
    ensures !OccursAt(JoinLines(ls), "\n\n", j)
  {
    var s := JoinLines(ls);
    if 0 <= j && j + 2 <= |s| {
      assert s[j..j + 2] == [s[j], s[j + 1]];
      if |ls| == 1 {
        assert s[j] in ls[0];
      } else {
        var a, t := ls[0], JoinLines(ls[1..]);
        assert s == a + "\n" + t;
        if j < |a| {
          assert s[j] == a[j];
          assert a[j] in ls[0];
        } else if j == |a| {
          JoinLinesEnds(ls[1..]);
          assert s[j + 1] == t[0] == ls[1][0];
          assert ls[1][0] in ls[1];
        } else {
          assert s[j..j + 2] == t[j - |a| - 1..j - |a| + 1];
          NoBlankLine(ls[1..], j - |a| - 1);
        }
      }
    }
  }

  /** A string without `c` is unchanged by removing `c`. */
  lemma {:induction false} RemoveAbsent(s: string, c: char)
    requires c !in s
    ensures Remove(s, c) == s
  {
    if s != [] {
      RemoveAbsent(s[1..], c);
      assert s == [s[0]] + s[1..];
    }
  }

  /** `s` with every occurrence of `c` removed (`chars().filter(|x| *x != c)`). */
  function Remove(s: string, c: char): (r: string)
    ensures c !in r
    ensures |r| <= |s|
  {
    if s == [] then [] else (if s[0] == c then [] else [s[0]]) + Remove(s[1..], c)
  }

  /** `filter_map(|p| p.parse().ok())`: the pieces that parse as integers, in order. */
  function ParsedInts(pieces: seq<string>): (r: seq<int>)
    ensures |r| <= |pieces|
  {
    if pieces == [] then []
    else
      match ParseInt(pieces[0])
      case Some(v) => [v] + ParsedInts(pieces[1..])
      case None => ParsedInts(pieces[1..])
  }

  /** `char::is_whitespace`: the characters with the Unicode White_Space property. */
  predicate IsWhitespace(c: char) {
    ('\U{0009}' <= c <= '\U{000D}') || c == ' ' || c == '\U{0085}' || c == '\U{00A0}'
    || c == '\U{1680}' || ('\U{2000}' <= c <= '\U{200A}') || c == '\U{2028}' || c == '\U{2029}'
    || c == '\U{202F}' || c == '\U{205F}' || c == '\U{3000}'
  }

  /** `str::trim`: `s` without its leading and trailing whitespace. */
  function Trim(s: string): (r: string)
    ensures |r| > 0 ==> !IsWhitespace(r[0]) && !IsWhitespace(r[|r| - 1])
    decreases |s|
  {
    if |s| > 0 && IsWhitespace(s[0]) then Trim(s[1..])
    else if |s| > 0 && IsWhitespace(s[|s| - 1]) then Trim(s[..|s| - 1])
    else s
  }

  /** The length of the run of non-whitespace characters that starts `s`. */
  function WordLength(s: string): (k: nat)
    ensures k <= |s|
    ensures forall i :: 0 <= i < k ==> !IsWhitespace(s[i])
    ensures k < |s| ==> IsWhitespace(s[k])
  {
    if s == [] || IsWhitespace(s[0]) then 0 else 1 + WordLength(s[1..])
  }

  /** `str::split_whitespace`: the maximal runs of non-whitespace characters, in order. */
  function SplitWhitespace(s: string): (r: seq<string>)
    ensures forall i :: 0 <= i < |r| ==> |r[i]| > 0
    decreases |s|
  {
    if s == [] then []
    else if IsWhitespace(s[0]) then SplitWhitespace(s[1..])
    else
      var k := WordLength(s);
      [s[..k]] + SplitWhitespace(s[k..])
  }

  /** A word followed by whitespace or by nothing: the run of non-whitespace is the word. */
  lemma {:induction false} WordLengthOf(w: string, rest: string)
    requires forall i :: 0 <= i < |w| ==> !IsWhitespace(w[i])
    requires rest == [] || IsWhitespace(rest[0])
    ensures WordLength(w + rest) == |w|
  {
    if w != [] {
      assert (w + rest)[1..] == w[1..] + rest;
      WordLengthOf(w[1..], rest);
    }
  }

  /** A non-empty word followed by whitespace or by nothing is split off whole. */
  lemma SplitWord(w: string, rest: string)
    requires |w| > 0 && forall i :: 0 <= i < |w| ==> !IsWhitespace(w[i])
    requires rest == [] || IsWhitespace(rest[0])
    ensures SplitWhitespace(w + rest) == [w] + SplitWhitespace(rest)
  {
    var s := w + rest;
    assert s[0] == w[0];
    WordLengthOf(w, rest);
    assert s[..|w|] == w && s[|w|..] == rest;
  }

  /** A leading space separates nothing. */
  lemma SplitLeadingSpace(s: string)
    ensures SplitWhitespace(" " + s) == SplitWhitespace(s)
  {
    assert (" " + s)[1..] == s;
  }

  /** A printed integer holds no whitespace. */
  lemma ShowWord(n: int)
    ensures |Show(n)| > 0 && forall i :: 0 <= i < |Show(n)| ==> !IsWhitespace(Show(n)[i])
  {
    forall i | 0 <= i < |Show(n)| ensures !IsWhitespace(Show(n)[i]) {
      ShowChars(n, i);
    }
  }

  /** Printed integers separated by single spaces, after a leading space, split back into the printed integers. */
  lemma {:induction false} SplitWhitespaceSpaced(ns: seq<int>)
    requires |ns| > 0
    ensures SplitWhitespace(" " + JoinSpaced(ns)) == seq(|ns|, i requires 0 <= i < |ns| => Show(ns[i]))
  {
    var s := JoinSpaced(ns);
    SplitLeadingSpace(s);
    var w := Show(ns[0]);
    ShowWord(ns[0]);
    if |ns| == 1 {
      assert s == w + [];
      SplitWord(w, []);
    } else {
      var rest := " " + JoinSpaced(ns[1..]);
      assert s == w + rest;
      SplitWord(w, rest);
      SplitWhitespaceSpaced(ns[1..]);
      ShowsCons(ns);
    }
  }

  lemma ShowsCons(ns: seq<int>)
    requires |ns| > 1
    ensures seq(|ns|, i requires 0 <= i < |ns| => Show(ns[i]))
      == [Show(ns[0])] + seq(|ns| - 1, i requires 0 <= i < |ns| - 1 => Show(ns[1..][i]))
  {
  }

  /** A printed integer has no whitespace to trim. */
  lemma TrimShow(n: int)
    ensures Trim(Show(n)) == Show(n)
  {
    var s := Show(n);
    ShowChars(n, 0);
    ShowChars(n, |s| - 1);
  }
}
