/** Advent of Code 2023, day 1, part 1: every line's calibration value is
    ten times its first digit plus its last digit, and the answer is the sum
    over all lines. `part1` collects the digits of a line and indexes the
    first and last; `part_1` searches with `find_map` from the front and
    from the back. A line without a digit makes both panic; here that is
    `None`. */
module Calibration {
  import opened Text

  const I32_MAX: int := 0x7fff_ffff
  const U32_MAX: int := 0xffff_ffff
  /** The largest number of lines whose values (at most 99 each) are sure to
      fit in an `i32`, resp. a `u32`, accumulator. */
  const MAX_LINES_I32: nat := 21_691_754
  const MAX_LINES_U32: nat := 43_383_508

  /** The characters `part1` keeps (`'0' <= c && c <= '9'`); `to_digit(10)`
      accepts exactly the same ones. */
  predicate IsDigit(c: char)
  {
    '0' <= c <= '9'
  }

  function DigitValue(c: char): (d: int)
    requires IsDigit(c)
    ensures 0 <= d <= 9
  {
    c as int - '0' as int
  }

  /** The values of the digits of `line`, in order: what `part1` pushes into
      `line_vec`. */
  function Digits(line: string): (ds: seq<int>)
    ensures |ds| <= |line|
    ensures forall k :: 0 <= k < |ds| ==> 0 <= ds[k] <= 9
  {
    if line == [] then []
    else (if IsDigit(line[0]) then [DigitValue(line[0])] else []) + Digits(line[1..])
  }

  /** The value of one line as `part1` forms it, `line_vec[0] * 10 +
      line_vec[line_vec.len() - 1]`; `None` where `line_vec` is empty and the
      indexing panics. */
  function LineValue(line: string): (v: Option<int>)
    ensures v.Some? ==> 0 <= v.value <= 99
  {
    var ds := Digits(line);
    if |ds| == 0 then None else Some(10 * ds[0] + ds[|ds| - 1])
  }

  /** `chars().find_map(|c| c.to_digit(10))`: the value of the first digit. */
  function FindDigit(cs: string): Option<int>
  {
    if cs == [] then None
    else if IsDigit(cs[0]) then Some(DigitValue(cs[0]))
    else FindDigit(cs[1..])
  }

  /** The value of one line as `part_1` forms it: the first digit from the
      front and the first from the back, each `unwrap`ped. */
  function ChainLineValue(line: string): Option<int>
  {
    match FindDigit(line)
    case None => None
    case Some(first) =>
      match FindDigit(Reverse(line))
      case None => None
      case Some(last) => Some(10 * first + last)
  }

  function Plus(a: Option<int>, b: Option<int>): Option<int>
  {
    if a.Some? && b.Some? then Some(a.value + b.value) else None
  }

  /** The sum of the values of all lines, `None` as soon as one line panics. */
  function SumLineValues(lines: seq<string>, value: string -> Option<int>): Option<int>
  {
    if lines == [] then Some(0)
    else Plus(value(lines[0]), SumLineValues(lines[1..], value))
  }

  /** `end_vec.iter().sum()`. */
  function Sum(xs: seq<int>): int
  {
    if xs == [] then 0 else xs[0] + Sum(xs[1..])
  }

  // ---------------------------------------------------------------------
  // The digits of a line

  lemma {:induction false} DigitsAppend(a: string, b: string)
    ensures Digits(a + b) == Digits(a) + Digits(b)
  {
    if a == [] {
      assert a + b == b;
    } else {
      assert (a + b)[1..] == a[1..] + b;
      DigitsAppend(a[1..], b);
    }
  }

  /** The digits of one more character. */
  lemma DigitsSnoc(line: string, k: nat)
    requires k < |line|
    ensures Digits(line[..k + 1]) ==
              Digits(line[..k]) + if IsDigit(line[k]) then [DigitValue(line[k])] else []
  {
    assert line[..k + 1] == line[..k] + [line[k]];
    DigitsAppend(line[..k], [line[k]]);
  }

  lemma {:induction false} NoDigits(s: string)
    ensures Digits(s) == [] <==> forall k :: 0 <= k < |s| ==> !IsDigit(s[k])
  {
    if s != [] {
      NoDigits(s[1..]);
      assert forall k :: 1 <= k < |s| ==> s[k] == s[1..][k - 1];
    }
  }

  lemma {:induction false} DigitsReverse(s: string)
    ensures Digits(Reverse(s)) == Reverse(Digits(s))
  {
    if s != [] {
      var d := if IsDigit(s[0]) then [DigitValue(s[0])] else [];
      assert Digits(s) == d + Digits(s[1..]);
      assert Reverse(s) == Reverse(s[1..]) + [s[0]];
      DigitsAppend(Reverse(s[1..]), [s[0]]);
      assert Digits([s[0]]) == d;
      DigitsReverse(s[1..]);
      ReverseAppend(d, Digits(s[1..]));
      assert Reverse(d) == d;
    }
  }

  lemma ReverseAppend(a: seq<int>, b: seq<int>)
    ensures Reverse(a + b) == Reverse(b) + Reverse(a)
  {
    assert |Reverse(a + b)| == |Reverse(b) + Reverse(a)|;
    forall k | 0 <= k < |a| + |b|
      ensures Reverse(a + b)[k] == (Reverse(b) + Reverse(a))[k]
    {
      if k < |b| {
        assert (Reverse(b) + Reverse(a))[k] == Reverse(b)[k];
      } else {
        assert (Reverse(b) + Reverse(a))[k] == Reverse(a)[k - |b|];
      }
    }
  }

  /** `find_map` returns the first of the collected digits. */
  lemma {:induction false} FindDigitIsFirst(s: string)
    ensures FindDigit(s) == if Digits(s) == [] then None else Some(Digits(s)[0])
  {
    if s != [] && !IsDigit(s[0]) {
      FindDigitIsFirst(s[1..]);
    }
  }

  // ---------------------------------------------------------------------
  // Properties of a line's value

  /** A line has no value (it panics) exactly when it holds no digit. */
  lemma NoValueWithoutDigit(line: string)
    ensures LineValue(line) == None <==> forall k :: 0 <= k < |line| ==> !IsDigit(line[k])
  {
    NoDigits(line);
  }

  /** The value is ten times the digit at the first digit position `i` plus
      the digit at the last digit position `j`. */
  lemma LineValueByIndex(line: string, i: nat, j: nat)
    requires i <= j < |line|
    requires IsDigit(line[i]) && IsDigit(line[j])
    requires forall k :: 0 <= k < i ==> !IsDigit(line[k])
    requires forall k :: j < k < |line| ==> !IsDigit(line[k])
    ensures LineValue(line) == Some(10 * DigitValue(line[i]) + DigitValue(line[j]))
  {
    var pre, mid, post := line[..i], line[i..j + 1], line[j + 1..];
    assert line == pre + mid + post;
    DigitsAppend(pre + mid, post);
    DigitsAppend(pre, mid);
    NoDigits(pre);
    NoDigits(post);
    assert forall k :: 0 <= k < |post| ==> post[k] == line[j + 1 + k];
    DigitsOfRun(mid);
  }

  /** The digits of a stretch that starts and ends with a digit start and
      end with those two. */
  lemma DigitsOfRun(mid: string)
    requires |mid| > 0 && IsDigit(mid[0]) && IsDigit(mid[|mid| - 1])
    ensures Digits(mid) != []
    ensures Digits(mid)[0] == DigitValue(mid[0])
    ensures Digits(mid)[|Digits(mid)| - 1] == DigitValue(mid[|mid| - 1])
  {
    var n := |mid|;
    assert Digits(mid) == [DigitValue(mid[0])] + Digits(mid[1..]);
    assert mid == mid[..n - 1] + [mid[n - 1]];
    DigitsAppend(mid[..n - 1], [mid[n - 1]]);
    assert Digits([mid[n - 1]]) == [DigitValue(mid[n - 1])];
  }

  /** A line with a single digit `d` is worth `11 * d`: the first digit and
      the last digit are the same one. */
  lemma SingleDigit(line: string, k: nat)
    requires k < |line| && IsDigit(line[k])
    requires forall m :: 0 <= m < |line| && m != k ==> !IsDigit(line[m])
    ensures LineValue(line) == Some(11 * DigitValue(line[k]))
  {
    LineValueByIndex(line, k, k);
  }

  /** Inserting (or removing) characters that are not digits does not change
      a line's value. */
  lemma NonDigitsIrrelevant(a: string, m: string, b: string)
    requires forall k :: 0 <= k < |m| ==> !IsDigit(m[k])
    ensures LineValue(a + m + b) == LineValue(a + b)
  {
    NoDigits(m);
    DigitsAppend(a + m, b);
    DigitsAppend(a, m);
    DigitsAppend(a, b);
  }

  /** `part_1`'s forward and reverse `find_map` give the same value as
      `part1`'s collect-then-index, on every line. */
  lemma ChainAgreesWithCollect(line: string)
    ensures ChainLineValue(line) == LineValue(line)
  {
    var ds := Digits(line);
    FindDigitIsFirst(line);
    FindDigitIsFirst(Reverse(line));
    DigitsReverse(line);
    if ds != [] {
      assert Reverse(ds)[0] == ds[|ds| - 1];
    }
  }

  // ---------------------------------------------------------------------
  // Properties of the total

  lemma {:induction false} SumAgrees(lines: seq<string>, f: string -> Option<int>, g: string -> Option<int>)
    requires forall k :: 0 <= k < |lines| ==> f(lines[k]) == g(lines[k])
    ensures SumLineValues(lines, f) == SumLineValues(lines, g)
  {
    if lines != [] {
      assert f(lines[0]) == g(lines[0]);
      SumAgrees(lines[1..], f, g);
    }
  }

  /** The two implementations agree on every input, totals included. */
  lemma TotalsAgree(lines: seq<string>)
    ensures SumLineValues(lines, ChainLineValue) == SumLineValues(lines, LineValue)
  {
    forall k | 0 <= k < |lines| ensures ChainLineValue(lines[k]) == LineValue(lines[k]) {
      ChainAgreesWithCollect(lines[k]);
    }
    SumAgrees(lines, ChainLineValue, LineValue);
  }

  /** The total panics exactly when some line panics. */
  lemma {:induction false} SumPanicsIff(lines: seq<string>, value: string -> Option<int>)
    ensures SumLineValues(lines, value) == None <==> exists k :: 0 <= k < |lines| && value(lines[k]) == None
  {
    if lines != [] {
      SumPanicsIff(lines[1..], value);
      if value(lines[0]) == None {
      } else {
        assert forall k :: 1 <= k < |lines| ==> lines[k] == lines[1..][k - 1];
        if exists k :: 0 <= k < |lines| && value(lines[k]) == None {
          var k :| 0 <= k < |lines| && value(lines[k]) == None;
          assert value(lines[1..][k - 1]) == None;
        }
      }
    }
  }

  lemma {:induction false} SumOfValues(lines: seq<string>, value: string -> Option<int>, vals: seq<int>)
    requires |vals| == |lines|
    requires forall k :: 0 <= k < |lines| ==> value(lines[k]) == Some(vals[k])
    ensures SumLineValues(lines, value) == Some(Sum(vals))
  {
    if lines != [] {
      SumOfValues(lines[1..], value, vals[1..]);
    }
  }

  lemma {:induction false} SumFailsAt(lines: seq<string>, value: string -> Option<int>, n: nat)
    requires n < |lines| && value(lines[n]) == None
    ensures SumLineValues(lines, value) == None
  {
    if n > 0 {
      SumFailsAt(lines[1..], value, n - 1);
    }
  }

  lemma {:induction false} SumAppend(a: seq<string>, b: seq<string>, value: string -> Option<int>)
    ensures SumLineValues(a + b, value) == Plus(SumLineValues(a, value), SumLineValues(b, value))
  {
    if a == [] {
      assert a + b == b;
    } else {
      assert (a + b)[1..] == a[1..] + b;
      SumAppend(a[1..], b, value);
    }
  }

  /** Taking one line out of the sum. */
  lemma {:induction false} SumRemove(ls: seq<string>, k: nat, value: string -> Option<int>)
    requires k < |ls|
    ensures SumLineValues(ls, value) == Plus(value(ls[k]), SumLineValues(ls[..k] + ls[k + 1..], value))
  {
    var rest := ls[..k] + ls[k + 1..];
    if k == 0 {
      assert rest == ls[1..];
    } else {
      var tail := ls[1..];
      assert rest[0] == ls[0];
      assert rest[1..] == tail[..k - 1] + tail[k..];
      SumRemove(tail, k - 1, value);
      PlusSwap(value(ls[0]), value(ls[k]), SumLineValues(rest[1..], value));
    }
  }

  lemma PlusSwap(a: Option<int>, x: Option<int>, b: Option<int>)
    ensures Plus(a, Plus(x, b)) == Plus(x, Plus(a, b))
  {
  }

  lemma MultisetRemove(ls: seq<string>, k: nat)
    requires k < |ls|
    ensures multiset(ls[..k] + ls[k + 1..]) == multiset(ls) - multiset{ls[k]}
  {
    assert ls == ls[..k] + [ls[k]] + ls[k + 1..];
  }

  /** The total is a sum: reordering the lines does not change it. */
  lemma {:induction false} SumPermutation(l1: seq<string>, l2: seq<string>, value: string -> Option<int>)
    requires multiset(l1) == multiset(l2)
    ensures SumLineValues(l1, value) == SumLineValues(l2, value)
    decreases |l1|
  {
    if l1 != [] {
      assert l1[0] in multiset(l2);
      var k :| 0 <= k < |l2| && l2[k] == l1[0];
      var rest := l2[..k] + l2[k + 1..];
      MultisetRemove(l2, k);
      MultisetRemove(l1, 0);
      assert l1[..0] + l1[1..] == l1[1..];
      SumPermutation(l1[1..], rest, value);
      SumRemove(l2, k, value);
    }
  }

  /** No total exceeds 99 per line. */
  lemma {:induction false} SumBound(lines: seq<string>)
    ensures SumLineValues(lines, LineValue).Some? ==>
              0 <= SumLineValues(lines, LineValue).value <= 99 * |lines|
  {
    if lines != [] {
      SumBound(lines[1..]);
    }
  }

  // ---------------------------------------------------------------------
  // The two implementations

  /** `part1`, over the text `read_to_string` returns: nested loops collect
      each line's digits into `line_vec`, push the line's value into
      `end_vec`, and sum `end_vec`. */
  method Part1(contents: string) returns (total: Option<int>)
    requires |Lines(contents)| <= MAX_LINES_I32
    ensures total == SumLineValues(Lines(contents), LineValue)
    ensures total.Some? ==> 0 <= total.value <= I32_MAX
  {
    var lines := Lines(contents);
    var endVec: seq<int> := [];
    for n := 0 to |lines|
      invariant |endVec| == n
      invariant forall j :: 0 <= j < n ==> LineValue(lines[j]) == Some(endVec[j])
    {
      var line := lines[n];
      var lineVec: seq<int> := [];
      for k := 0 to |line|
        invariant lineVec == Digits(line[..k])
      {
        DigitsSnoc(line, k);
        if '0' <= line[k] <= '9' {
          lineVec := lineVec + [line[k] as int - '0' as int];
        }
      }
      assert line[..|line|] == line;
      if |lineVec| == 0 {
        // `line_vec[0]` panics: index out of bounds
        SumFailsAt(lines, LineValue, n);
        return None;
      }
      endVec := endVec + [lineVec[0] * 10 + lineVec[|lineVec| - 1]];
    }
    SumOfValues(lines, LineValue, endVec);
    SumBound(lines);
    total := Some(Sum(endVec));
  }

  /** `part_1`: the `lines().map(..).sum()` chain. Its total is the same as
      `part1`'s on every input. */
  function Part1Chain(input: string): (total: Option<int>)
    requires |Lines(input)| <= MAX_LINES_U32
    ensures total == SumLineValues(Lines(input), LineValue)
    ensures total.Some? ==> 0 <= total.value <= U32_MAX
  {
    TotalsAgree(Lines(input));
    SumBound(Lines(input));
    SumLineValues(Lines(input), ChainLineValue)
  }

  // ---------------------------------------------------------------------
  // Worked examples

  lemma ExampleDigits()
    ensures LineValue("a1b2c3") == Some(13)
  {
    LineValueByIndex("a1b2c3", 1, 5);
  }

  lemma ExampleSingle()
    ensures LineValue("7") == Some(77)
  {
    SingleDigit("7", 0);
  }

  lemma ExampleFirstLine()
    ensures LineValue("1abc2") == Some(12)
  {
    LineValueByIndex("1abc2", 0, 4);
  }

  lemma ExampleSecondLine()
    ensures LineValue("pqr3stu8vwx") == Some(38)
  {
    LineValueByIndex("pqr3stu8vwx", 3, 7);
  }

  /** The total of two lines, unrolled. */
  lemma SumOfTwo(a: string, b: string, value: string -> Option<int>)
    ensures SumLineValues([a, b], value) == Plus(value(a), Plus(value(b), Some(0)))
  {
    assert [a, b][1..] == [b];
    assert [b][1..] == [];
    assert SumLineValues([b], value) == Plus(value(b), SumLineValues([], value));
  }

  lemma ExampleTotal()
    ensures SumLineValues(["1abc2", "pqr3stu8vwx"], LineValue) == Some(50)
  {
    SumOfTwo("1abc2", "pqr3stu8vwx", LineValue);
    ExampleFirstLine();
    ExampleSecondLine();
    assert Plus(Some(12), Plus(Some(38), Some(0))) == Some(50);
  }


}
