/** Text helpers shared by the line-oriented exercises: an option type for
    computations that may panic, searching for a character, reversal, and
    the line splitting performed by Rust's `str::lines`. */
module Text {

  /** `None` stands for a computation that panics (an `unwrap()` on nothing,
      an index out of bounds). */
  datatype Option<T> = None | Some(value: T)

  /** Index of the first occurrence of `c` in `s`, or `|s|` when there is none. */
  function IndexOf(s: string, c: char): (i: nat)
    ensures i <= |s|
    ensures i < |s| ==> s[i] == c
    ensures forall k :: 0 <= k < i ==> s[k] != c
  {
    if s == [] then 0
    else if s[0] == c then 0
    else 1 + IndexOf(s[1..], c)
  }

  /** `IndexOf` finds `c` exactly when `c` occurs. */
  lemma IndexOfFound(s: string, c: char)
    ensures IndexOf(s, c) < |s| <==> c in s
  {
    var i := IndexOf(s, c);
    if c in s {
      var k :| 0 <= k < |s| && s[k] == c;
      assert i <= k;
    }
  }

  /** The elements of `s` in the opposite order (`.rev()`). */
  function Reverse<T>(s: seq<T>): (r: seq<T>)
    ensures |r| == |s|
    ensures forall k :: 0 <= k < |s| ==> r[k] == s[|s| - 1 - k]
  {
    if s == [] then [] else Reverse(s[1..]) + [s[0]]
  }

  /** Drops one carriage return at the end of a line that was ended by "\r\n". */
  function StripCR(s: string): string
  {
    if EndsWithCR(s) then s[..|s| - 1] else s
  }

  predicate EndsWithCR(s: string)
  {
    s != [] && s[|s| - 1] == '\r'
  }

  /** The lines of `s` as `str::lines` yields them: the text is cut after
      every '\n', the '\n' (and a '\r' right before it) is dropped, and a
      final line ending does not start an extra empty line. */
  function Lines(s: string): (ls: seq<string>)
    ensures forall k :: 0 <= k < |ls| ==> '\n' !in ls[k]
    ensures s == [] <==> ls == []
    decreases |s|
  {
    if s == [] then []
    else
      var i := IndexOf(s, '\n');
      if i == |s| then [s] else [StripCR(s[..i])] + Lines(s[i + 1..])
  }

  /** The text made of `ls`, each line followed by '\n'. */
  function Terminated(ls: seq<string>): string
  {
    if ls == [] then [] else ls[0] + "\n" + Terminated(ls[1..])
  }

  /** Splitting a text made of terminated lines gives back those lines,
      as long as no line holds a '\n' or ends with '\r'. */
  lemma {:induction false} LinesOfTerminated(ls: seq<string>)
    requires forall k :: 0 <= k < |ls| ==> '\n' !in ls[k] && !EndsWithCR(ls[k])
    ensures Lines(Terminated(ls)) == ls
  {
    if ls != [] {
      LinesFirstLine(ls[0], Terminated(ls[1..]));
      LinesOfTerminated(ls[1..]);
    }
  }

  /** Terminated lines in front of a text add exactly those lines. */
  lemma {:induction false} LinesAppend(ls: seq<string>, r: string)
    requires forall k :: 0 <= k < |ls| ==> '\n' !in ls[k] && !EndsWithCR(ls[k])
    ensures Lines(Terminated(ls) + r) == ls + Lines(r)
  {
    if ls == [] {
      assert Terminated(ls) + r == r;
    } else {
      TerminatedCons(ls, r);
      LinesFirstLine(ls[0], Terminated(ls[1..]) + r);
      assert StripCR(ls[0]) == ls[0];
      LinesAppend(ls[1..], r);
      ConsAppend(ls, Lines(r));
    }
  }

  lemma TerminatedCons(ls: seq<string>, r: string)
    requires ls != []
    ensures Terminated(ls) + r == ls[0] + "\n" + (Terminated(ls[1..]) + r)
  {
  }

  lemma ConsAppend<T>(xs: seq<T>, ys: seq<T>)
    requires xs != []
    ensures xs + ys == [xs[0]] + (xs[1..] + ys)
  {
    assert xs == [xs[0]] + xs[1..];
  }

  /** A last line with no '\n' after it is kept as a line of its own. */
  lemma LinesOfTerminatedThen(ls: seq<string>, last: string)
    requires forall k :: 0 <= k < |ls| ==> '\n' !in ls[k] && !EndsWithCR(ls[k])
    requires last != [] && '\n' !in last
    ensures Lines(Terminated(ls) + last) == ls + [last]
  {
    LinesAppend(ls, last);
    LinesOfOne(last);
  }

  /** A nonempty text without '\n' is one line. */
  lemma LinesOfOne(last: string)
    requires last != [] && '\n' !in last
    ensures Lines(last) == [last]
  {
    IndexOfFound(last, '\n');
  }

  /** A line ended by "\r\n" loses both characters. */
  lemma LinesCRLF(a: string, rest: string)
    requires '\n' !in a
    ensures Lines(a + "\r\n" + rest) == [a] + Lines(rest)
  {
    var line := a + "\r";
    assert '\n' !in line;
    assert a + "\r\n" + rest == line + "\n" + rest;
    LinesFirstLine(line, rest);
    assert line[..|line| - 1] == a;
  }

  /** The first line of a text is the text before its first '\n', less a
      '\r' at its end; the lines after it are those of the rest. */
  lemma LinesFirstLine(head: string, rest: string)
    requires '\n' !in head
    ensures Lines(head + "\n" + rest) == [StripCR(head)] + Lines(rest)
  {
    var s := head + "\n" + rest;
    assert s[|head|] == '\n';
    assert s[..|head|] == head;
    assert s[|head| + 1..] == rest;
    forall k | 0 <= k < |head| ensures s[k] != '\n' {
      assert s[k] == head[k];
    }
    assert IndexOf(s, '\n') == |head|;
  }
}
