/** The record loop of the CSV exercise: the header line and blank lines are
    skipped, every other line is split on ',' with each field trimmed, and a
    `(name, length)` record is printed when the second field parses as a
    number. The number parser (`parse::<f32>`) is a parameter, `parse`. */
module Csv {
  import opened Text

  datatype Record<L> = Record(name: string, length: L)

  /** What the loop does with one line after the header. */
  datatype Action<L> = Skip | Emit(record: Record<L>) | Panic

  /** The records printed, and whether the loop stopped on a panic (records
      printed before the panic stay printed). */
  datatype Output<L> = Output(records: seq<Record<L>>, panicked: bool)

  // ---------------------------------------------------------------------
  // Trimming

  /** `char::is_whitespace`: the characters with the Unicode White_Space
      property. */
  predicate IsWhitespace(c: char)
  {
    var n := c as int;
    (9 <= n <= 13) || n == 32 || n == 0x85 || n == 0xA0 || n == 0x1680
    || (0x2000 <= n <= 0x200A) || n == 0x2028 || n == 0x2029 || n == 0x202F
    || n == 0x205F || n == 0x3000
  }

  predicate IsTrimmed(s: string)
  {
    s == [] || (!IsWhitespace(s[0]) && !IsWhitespace(s[|s| - 1]))
  }

  /** `s` without its leading whitespace. */
  function TrimStart(s: string): string
  {
    if s != [] && IsWhitespace(s[0]) then TrimStart(s[1..]) else s
  }

  /** `s` without its trailing whitespace. */
  function TrimEnd(s: string): string
  {
    if s != [] && IsWhitespace(s[|s| - 1]) then TrimEnd(s[..|s| - 1]) else s
  }

  /** `str::trim`: `s` without its leading and trailing whitespace. */
  function Trim(s: string): string
  {
    TrimEnd(TrimStart(s))
  }

  /** `TrimStart(s)` is the suffix of `s` left after its whitespace: it is
      empty or starts with other than whitespace, and only whitespace is
      dropped. */
  lemma {:induction false} TrimStartFacts(s: string)
    ensures |TrimStart(s)| <= |s| && TrimStart(s) == s[|s| - |TrimStart(s)|..]
    ensures TrimStart(s) == [] || !IsWhitespace(TrimStart(s)[0])
    ensures forall k :: 0 <= k < |s| - |TrimStart(s)| ==> IsWhitespace(s[k])
  {
    if s != [] && IsWhitespace(s[0]) {
      var r := TrimStart(s[1..]);
      TrimStartFacts(s[1..]);
      assert s[1..][|s| - 1 - |r|..] == s[|s| - |r|..];
      forall k | 1 <= k < |s| - |r| ensures IsWhitespace(s[k]) {
        assert s[k] == s[1..][k - 1];
      }
    }
  }

  /** `TrimEnd(s)` is the prefix of `s` left before its trailing whitespace:
      it is empty or ends with other than whitespace, and only whitespace is
      dropped. */
  lemma {:induction false} TrimEndFacts(s: string)
    ensures |TrimEnd(s)| <= |s| && TrimEnd(s) == s[..|TrimEnd(s)|]
    ensures TrimEnd(s) == [] || !IsWhitespace(TrimEnd(s)[|TrimEnd(s)| - 1])
    ensures forall k :: |TrimEnd(s)| <= k < |s| ==> IsWhitespace(s[k])
  {
    if s != [] && IsWhitespace(s[|s| - 1]) {
      var r := TrimEnd(s[..|s| - 1]);
      TrimEndFacts(s[..|s| - 1]);
      assert s[..|s| - 1][..|r|] == s[..|r|];
      forall k | |r| <= k < |s| - 1 ensures IsWhitespace(s[k]) {
        assert s[k] == s[..|s| - 1][k];
      }
    }
  }

  /** A trimmed string neither starts nor ends with whitespace. */
  lemma TrimIsTrimmed(s: string)
    ensures IsTrimmed(Trim(s))
  {
    var t := TrimStart(s);
    TrimStartFacts(s);
    TrimEndFacts(t);
    if TrimEnd(t) != [] {
      assert TrimEnd(t)[0] == t[0];
    }
  }

  /** `Trim(s)` is empty exactly when `s` is all whitespace. */
  lemma TrimEmpty(s: string)
    ensures Trim(s) == [] <==> forall k :: 0 <= k < |s| ==> IsWhitespace(s[k])
  {
    var t := TrimStart(s);
    TrimStartFacts(s);
    TrimEndFacts(t);
    if t != [] {
      assert t[0] == s[|s| - |t|];
    }
  }

  /** `Trim(s)` is the stretch `s[i..j]` with only whitespace around it. */
  lemma TrimSpan(s: string)
    ensures exists i, j :: 0 <= i <= j <= |s| && Trim(s) == s[i..j]
              && (forall k :: 0 <= k < i ==> IsWhitespace(s[k]))
              && (forall k :: j <= k < |s| ==> IsWhitespace(s[k]))
  {
    var t := TrimStart(s);
    TrimStartFacts(s);
    TrimEndFacts(t);
    var i := |s| - |t|;
    var j := i + |TrimEnd(t)|;
    forall k | j <= k < |s| ensures IsWhitespace(s[k]) {
      assert s[k] == t[k - i];
    }
    assert Trim(s) == s[i..j];
  }

  /** Trimming a trimmed string changes nothing. */
  lemma TrimIdempotent(s: string)
    ensures Trim(Trim(s)) == Trim(s)
  {
    var r := Trim(s);
    TrimIsTrimmed(s);
    if r != [] {
      TrimStartStops(r);
      TrimEndStops(r);
    }
  }

  // ---------------------------------------------------------------------
  // Splitting

  /** `str::split(sep)`: the pieces between occurrences of `sep`. */
  function Split(s: string, sep: char): (pieces: seq<string>)
    ensures |pieces| >= 1
    decreases |s|
  {
    var i := IndexOf(s, sep);
    if i == |s| then [s] else [s[..i]] + Split(s[i + 1..], sep)
  }

  /** No piece holds the separator. */
  lemma {:induction false} SplitPiecesLackSep(s: string, sep: char)
    ensures forall k :: 0 <= k < |Split(s, sep)| ==> sep !in Split(s, sep)[k]
    decreases |s|
  {
    var i := IndexOf(s, sep);
    if i == |s| {
      IndexOfFound(s, sep);
    } else {
      IndexOfFound(s[..i], sep);
      assert IndexOf(s[..i], sep) == i;
      SplitPiecesLackSep(s[i + 1..], sep);
    }
  }

  /** The pieces put back together with `sep` between them. */
  function Join(pieces: seq<string>, sep: char): string
    requires |pieces| >= 1
  {
    if |pieces| == 1 then pieces[0] else pieces[0] + [sep] + Join(pieces[1..], sep)
  }

  /** Splitting loses nothing: joining the pieces gives back the line. */
  lemma {:induction false} JoinSplit(s: string, sep: char)
    ensures Join(Split(s, sep), sep) == s
    decreases |s|
  {
    var i := IndexOf(s, sep);
    var pieces := Split(s, sep);
    if i < |s| {
      var rest := s[i + 1..];
      assert pieces == [s[..i]] + Split(rest, sep);
      assert pieces[0] == s[..i] && pieces[1..] == Split(rest, sep);
      JoinSplit(rest, sep);
      assert Join(pieces, sep) == s[..i] + [sep] + rest;
      assert s == s[..i] + [sep] + rest;
    } else {
      assert pieces == [s];
    }
  }

  /** Joined pieces split back into the same pieces. */
  lemma {:induction false} SplitJoin(pieces: seq<string>, sep: char)
    requires |pieces| >= 1
    requires forall k :: 0 <= k < |pieces| ==> sep !in pieces[k]
    ensures Split(Join(pieces, sep), sep) == pieces
  {
    var s := Join(pieces, sep);
    var p := pieces[0];
    if |pieces| == 1 {
      IndexOfFound(p, sep);
    } else {
      assert s == p + [sep] + Join(pieces[1..], sep);
      assert s[..|p|] == p;
      var i := IndexOf(s, sep);
      assert s[|p|] == sep;
      assert i == |p|;
      assert s[i + 1..] == Join(pieces[1..], sep);
      SplitJoin(pieces[1..], sep);
    }
  }

  /** There is one more piece than there are separators. */
  lemma {:induction false} SplitCount(s: string, sep: char)
    ensures |Split(s, sep)| == multiset(s)[sep] + 1
    decreases |s|
  {
    var i := IndexOf(s, sep);
    if i == |s| {
      IndexOfFound(s, sep);
      assert multiset(s)[sep] == 0;
    } else {
      var rest := s[i + 1..];
      assert |Split(s, sep)| == 1 + |Split(rest, sep)|;
      SplitCount(rest, sep);
      CountAroundFirst(s, sep, i);
    }
  }

  /** The first occurrence of `c` is one of them, and the rest come after it. */
  lemma CountAroundFirst(s: string, c: char, i: nat)
    requires i < |s| && s[i] == c && forall k :: 0 <= k < i ==> s[k] != c
    ensures multiset(s)[c] == multiset(s[i + 1..])[c] + 1
  {
    assert s == s[..i] + [s[i]] + s[i + 1..];
    assert c !in s[..i];
    assert multiset(s) == multiset(s[..i]) + multiset{c} + multiset(s[i + 1..]);
  }

  /** The first piece is the text before the first separator. */
  lemma SplitFirst(s: string, sep: char)
    ensures Split(s, sep)[0] == s[..IndexOf(s, sep)]
  {
  }

  /** `.map(|field| field.trim())`: every piece, trimmed. */
  function TrimAll(pieces: seq<string>): (fields: seq<string>)
    ensures |fields| == |pieces|
  {
    if pieces == [] then [] else [Trim(pieces[0])] + TrimAll(pieces[1..])
  }

  lemma {:induction false} TrimAllAt(pieces: seq<string>, k: nat)
    requires k < |pieces|
    ensures TrimAll(pieces)[k] == Trim(pieces[k])
  {
    var rest := TrimAll(pieces[1..]);
    assert TrimAll(pieces) == [Trim(pieces[0])] + rest;
    if k > 0 {
      TrimAllAt(pieces[1..], k - 1);
      assert pieces[1..][k - 1] == pieces[k];
    }
  }

  /** `line.split(',').map(|field| field.trim()).collect()`. */
  function Fields(line: string): seq<string>
  {
    TrimAll(Split(line, ','))
  }

  /** A line has one field more than it has commas; every field is the
      trimmed piece of the line between two commas. */
  lemma FieldsShape(line: string)
    ensures |Fields(line)| == |Split(line, ',')| == multiset(line)[','] + 1
    ensures forall k :: 0 <= k < |Fields(line)| ==> IsTrimmed(Fields(line)[k])
    ensures forall k :: 0 <= k < |Fields(line)| ==> Fields(line)[k] == Trim(Split(line, ',')[k])
  {
    SplitCount(line, ',');
    forall k | 0 <= k < |Fields(line)|
      ensures Fields(line)[k] == Trim(Split(line, ',')[k]) && IsTrimmed(Fields(line)[k])
    {
      TrimAllAt(Split(line, ','), k);
      TrimIsTrimmed(Split(line, ',')[k]);
    }
  }

  // ---------------------------------------------------------------------
  // The record loop

  predicate IsBlank(line: string)
  {
    Trim(line) == []
  }

  /** One line after the header: blank lines are skipped (`continue`);
      otherwise `fields[0]` is the name, indexing `fields[1]` panics when
      there is no comma, and a record is printed when `fields[1]`
      parses. */
  function LineAction<L>(line: string, parse: string -> Option<L>): Action<L>
  {
    if IsBlank(line) then Skip
    else
      var fields := Fields(line);
      if |fields| < 2 then Panic
      else match parse(fields[1])
        case Some(length) => Emit(Record(fields[0], length))
        case None => Skip
  }

  function Prepend<L>(rs: seq<Record<L>>, out: Output<L>): Output<L>
  {
    Output(rs + out.records, out.panicked)
  }

  /** The output of one line followed by the output `rest` of the lines
      after it. */
  function Step<L>(act: Action<L>, rest: Output<L>): Output<L>
  {
    match act
    case Skip => rest
    case Emit(r) => Prepend([r], rest)
    case Panic => Output([], true)
  }

  /** The output of some lines followed by the output of the lines after
      them. */
  function Then<L>(first: Output<L>, second: Output<L>): Output<L>
  {
    if first.panicked then first else Prepend(first.records, second)
  }

  /** The lines after the header, in order, until one panics. */
  function Body<L>(lines: seq<string>, parse: string -> Option<L>): Output<L>
  {
    if lines == [] then Output([], false)
    else Step(LineAction(lines[0], parse), Body(lines[1..], parse))
  }

  /** The whole loop: line 0 is the header and is never looked at. */
  function Process<L>(lines: seq<string>, parse: string -> Option<L>): Output<L>
  {
    if lines == [] then Output([], false) else Body(lines[1..], parse)
  }

  /** The `for (i, records) in data.lines().enumerate()` loop of `main`,
      with the `println!` of each record collected into `out.records`. */
  method RecordLoop<L>(data: string, parse: string -> Option<L>) returns (out: Output<L>)
    ensures out == Process(Lines(data), parse)
  {
    var lines := Lines(data);
    var printed: seq<Record<L>> := [];
    for i := 0 to |lines|
      invariant i == 0 ==> printed == []
      invariant i > 0 ==> Process(lines, parse) == Prepend(printed, Body(lines[i..], parse))
    {
      var line := lines[i];
      if i == 0 {
        PrependNothing(Body(lines[1..], parse));
        continue;
      }
      Advance(lines, i, printed, parse);
      if |Trim(line)| == 0 {
        continue;
      }
      var fields := Fields(line);
      var name := fields[0];
      if |fields| < 2 {
        // `fields[1]` panics: index out of bounds
        return Output(printed, true);
      }
      match parse(fields[1])
      case Some(length) =>
        printed := printed + [Record(name, length)];
      case None =>
    }
    assert lines[|lines|..] == [];
    out := Output(printed, false);
  }

  /** One turn of the record loop, case by case: what is printed so far,
      followed by the output of the lines from `i + 1` on, is again the
      output of the whole loop. */
  lemma Advance<L>(lines: seq<string>, i: nat, printed: seq<Record<L>>, parse: string -> Option<L>)
    requires 0 < i < |lines|
    requires Process(lines, parse) == Prepend(printed, Body(lines[i..], parse))
    ensures |Trim(lines[i])| == 0 ==>
              Process(lines, parse) == Prepend(printed, Body(lines[i + 1..], parse))
    ensures |Trim(lines[i])| != 0 && |Fields(lines[i])| < 2 ==>
              Process(lines, parse) == Output(printed, true)
    ensures |Trim(lines[i])| != 0 && |Fields(lines[i])| >= 2 && parse(Fields(lines[i])[1]).None? ==>
              Process(lines, parse) == Prepend(printed, Body(lines[i + 1..], parse))
    ensures |Trim(lines[i])| != 0 && |Fields(lines[i])| >= 2 && parse(Fields(lines[i])[1]).Some? ==>
              Process(lines, parse) ==
              Prepend(printed + [Record(Fields(lines[i])[0], parse(Fields(lines[i])[1]).value)], Body(lines[i + 1..], parse))
  {
    BodyUnfold(lines, i, parse);
    var line := lines[i];
    var rest := Body(lines[i + 1..], parse);
    if |Trim(line)| == 0 {
      assert LineAction(line, parse) == Skip;
    } else if |Fields(line)| < 2 {
      assert LineAction(line, parse) == Panic;
    } else if parse(Fields(line)[1]).Some? {
      var r := Record(Fields(line)[0], parse(Fields(line)[1]).value);
      assert LineAction(line, parse) == Emit(r);
      PrependTwice(printed, r, rest);
    } else {
      assert LineAction(line, parse) == Skip;
    }
  }

  lemma PrependNothing<L>(o: Output<L>)
    ensures Prepend([], o) == o
  {
    assert [] + o.records == o.records;
  }

  lemma PrependTwice<L>(rs: seq<Record<L>>, r: Record<L>, o: Output<L>)
    ensures Prepend(rs, Prepend([r], o)) == Prepend(rs + [r], o)
  {
    assert rs + ([r] + o.records) == (rs + [r]) + o.records;
  }

  lemma BodyUnfold<L>(lines: seq<string>, i: nat, parse: string -> Option<L>)
    requires i < |lines|
    ensures Body(lines[i..], parse) == Step(LineAction(lines[i], parse), Body(lines[i + 1..], parse))
  {
    assert lines[i..][1..] == lines[i + 1..];
  }

  // ---------------------------------------------------------------------
  // Properties

  /** The header line never produces a record, whatever it holds. */
  lemma HeaderIgnored<L>(header: string, other: string, rest: seq<string>, parse: string -> Option<L>)
    ensures Process([header] + rest, parse) == Process([other] + rest, parse)
    ensures Process([header] + rest, parse) == Body(rest, parse)
  {
    assert ([header] + rest)[1..] == rest;
    assert ([other] + rest)[1..] == rest;
  }

  /** What happens to one line, case by case: it panics exactly when it is
      not blank and has no comma; it is printed exactly when it is not blank,
      has a comma and its trimmed second field parses, and then the name is
      the trimmed text before the first comma. */
  lemma LineActionCases<L>(line: string, parse: string -> Option<L>)
    ensures LineAction(line, parse) == Panic <==> !IsBlank(line) && ',' !in line
    ensures LineAction(line, parse).Emit? <==>
              !IsBlank(line) && ',' in line && parse(Trim(Split(line, ',')[1])).Some?
    ensures LineAction(line, parse).Emit? ==>
              LineAction(line, parse).record.name == Trim(line[..IndexOf(line, ',')])
              && parse(Trim(Split(line, ',')[1])) == Some(LineAction(line, parse).record.length)
    ensures IsBlank(line) ==> LineAction(line, parse) == Skip
  {
    TwoFieldsIffComma(line);
    if !IsBlank(line) && ',' in line {
      EmitCase(line, parse);
    }
  }

  /** A line that is not blank and has a comma: its action is decided by
      whether its trimmed second piece parses, and its name is its trimmed
      first piece. */
  lemma EmitCase<L>(line: string, parse: string -> Option<L>)
    requires !IsBlank(line) && |Fields(line)| >= 2
    ensures LineAction(line, parse).Emit? <==> parse(Trim(Split(line, ',')[1])).Some?
    ensures LineAction(line, parse).Emit? ==>
              LineAction(line, parse).record.name == Trim(line[..IndexOf(line, ',')])
              && parse(Trim(Split(line, ',')[1])) == Some(LineAction(line, parse).record.length)
  {
    FieldAt(line, 0);
    FieldAt(line, 1);
    SplitFirst(line, ',');
  }

  /** A line has a second field exactly when it holds a comma. */
  lemma TwoFieldsIffComma(line: string)
    ensures |Fields(line)| >= 2 <==> ',' in line
  {
    SplitCount(line, ',');
    assert ',' in line <==> ',' in multiset(line);
  }

  lemma FieldAt(line: string, k: nat)
    requires k < |Split(line, ',')|
    ensures |Fields(line)| == |Split(line, ',')| && Fields(line)[k] == Trim(Split(line, ',')[k])
  {
    TrimAllAt(Split(line, ','), k);
  }

  /** A blank line anywhere after the header changes nothing. */
  lemma {:induction false} BlankLineSkippedInBody<L>(lines: seq<string>, k: nat, blank: string, parse: string -> Option<L>)
    requires k <= |lines| && IsBlank(blank)
    ensures Body(lines[..k] + [blank] + lines[k..], parse) == Body(lines, parse)
  {
    var ls := lines[..k] + [blank] + lines[k..];
    if k == 0 {
      assert ls[1..] == lines;
    } else {
      assert ls[0] == lines[0];
      assert ls[1..] == lines[1..][..k - 1] + [blank] + lines[1..][k - 1..];
      BlankLineSkippedInBody(lines[1..], k - 1, blank, parse);
    }
  }

  lemma BlankLineSkipped<L>(lines: seq<string>, k: nat, blank: string, parse: string -> Option<L>)
    requires 1 <= k <= |lines| && IsBlank(blank)
    ensures Process(lines[..k] + [blank] + lines[k..], parse) == Process(lines, parse)
  {
    var rest := lines[1..];
    assert (lines[..k] + [blank] + lines[k..])[1..] == rest[..k - 1] + [blank] + rest[k - 1..];
    BlankLineSkippedInBody(rest, k - 1, blank, parse);
  }

  /** Records come out in the order of their lines: the output for `a + b`
      is that for `a` followed by that for `b`, unless `a` panicked. */
  lemma {:induction false} BodyAppend<L>(a: seq<string>, b: seq<string>, parse: string -> Option<L>)
    ensures Body(a + b, parse) == Then(Body(a, parse), Body(b, parse))
  {
    if a == [] {
      assert a + b == b;
    } else {
      assert (a + b)[0] == a[0];
      assert (a + b)[1..] == a[1..] + b;
      BodyAppend(a[1..], b, parse);
      StepThen(LineAction(a[0], parse), Body(a[1..], parse), Body(b, parse));
    }
  }

  lemma StepThen<L>(act: Action<L>, x: Output<L>, y: Output<L>)
    ensures Step(act, Then(x, y)) == Then(Step(act, x), y)
  {
    match act
    case Skip =>
    case Panic =>
    case Emit(r) =>
      assert [r] + (x.records + y.records) == ([r] + x.records) + y.records;
  }

  /** `"Invalid, data"` prints nothing when `"data"` does not parse. */
  lemma InvalidDataSkipped<L>(parse: string -> Option<L>)
    requires parse("data") == None
    ensures LineAction("Invalid, data", parse) == Skip
  {
    var line := "Invalid, data";
    InvalidLineNotBlank();
    InvalidLineSplit();
    InvalidLineFields();
    assert Fields(line)[1] == "data";
  }

  lemma InvalidLineNotBlank()
    ensures !IsBlank("Invalid, data")
  {
    var line := "Invalid, data";
    TrimStartStops(line);
    TrimEndStops(line);
  }

  lemma InvalidLineFields()
    ensures Trim(" data") == "data"
  {
    var s := " data";
    TrimStartSkips(s);
    var t := s[1..];
    assert t[0] == 'd';
    TrimStartStops(t);
    TrimEndStops(t);
    assert t == "data";
  }

  lemma InvalidLineSplit()
    ensures Split("Invalid, data", ',') == ["Invalid", " data"]
  {
    InvalidLineParts();
    SplitOnce("Invalid", " data", ',');
    SplitNone(" data", ',');
  }

  lemma InvalidLineParts()
    ensures "Invalid, data" == "Invalid" + [','] + " data"
    ensures ',' !in "Invalid" && ',' !in " data"
  {
  }

  /** Splitting at the first separator. */
  lemma SplitOnce(p: string, q: string, sep: char)
    requires sep !in p
    ensures Split(p + [sep] + q, sep) == [p] + Split(q, sep)
  {
    var s := p + [sep] + q;
    IndexOfFound(p, sep);
    IndexOfAt(s, sep, |p|);
    assert s[..|p|] == p;
    assert s[|p| + 1..] == q;
  }

  lemma SplitNone(q: string, sep: char)
    requires sep !in q
    ensures Split(q, sep) == [q]
  {
    IndexOfFound(q, sep);
  }

  lemma TrimStartSkips(s: string)
    requires |s| > 0 && IsWhitespace(s[0])
    ensures TrimStart(s) == TrimStart(s[1..])
  {
  }

  lemma TrimStartStops(s: string)
    requires |s| > 0 && !IsWhitespace(s[0])
    ensures TrimStart(s) == s
  {
  }

  lemma TrimEndStops(s: string)
    requires |s| > 0 && !IsWhitespace(s[|s| - 1])
    ensures TrimEnd(s) == s
  {
  }

  lemma IndexOfAt(s: string, c: char, i: nat)
    requires i <= |s| && (i < |s| ==> s[i] == c)
    requires forall k :: 0 <= k < i ==> s[k] != c
    ensures IndexOf(s, c) == i
  {
  }
}
