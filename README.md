# rust-notes: a verified model of four exercises

This project models, in Dafny, four small exercises of the `rust-notes`
learning repository, and proves what each of them computes.

- **Calibration values** (Advent of Code 2023, day 1, part 1), module
  `Calibration` in `calibration.dfy`. A line's value is ten times its first
  ASCII digit plus its last one, and the answer is the sum over all lines.
  The exercise does this twice:
  - `part1` collects the digits of each line into a vector and indexes its
    first and last entries. It is modelled as the method `Part1`, with the
    same nested loops.
  - `part_1` uses `find_map` from the front and from the back. It is
    modelled as the function `Part1Chain`.
  A line without a digit makes both of them panic; here that is `None`. The
  two are proved to agree on every input.
- **`first_word`**, module `FirstWord` in `first_word.dfy`. It returns the
  bytes of a string up to its first space. It is modelled as a method over
  bytes with the source's loop and early return, and proved against the
  reference definition `WordOf`.
- **The CSV record loop**, module `Csv` in `csv_records.dfy`. The loop skips
  the header and blank lines, splits every other line on `,` and trims each
  field. It prints `(name, length)` when the second field parses as a
  number, and panics when a line has no comma. It is modelled as the method
  `RecordLoop`, proved equal to the functional definition `Process`. The
  `f32` parser is a parameter.
- **Sorting**, module `SortVectors` in `sort_vectors.dfy`. `SortBy` is one
  in-place sort method over an array, generic in its comparator. It is
  proved to leave the array ordered and a permutation of what it held. It
  is used for three things:
  - `vec.sort()` on integers;
  - `people.sort()` under the `Ord` that `#[derive]` gives `Person` (name
    first, then age);
  - `people.sort_by` with the comparator of `main`.

Module `Text` in `text.dfy` holds what these share: the `Option` type,
searching for a character, reversal, and `str::lines`. As in Rust, the text
is cut at every `'\n'`, a `'\r'` right before the `'\n'` is removed, and a
final line ending does not start an empty line.

Panics are values (`None`, `Panic`, `AssertFailed(line)`), not
preconditions. Three kinds of precondition remain:
- Fixed-width arithmetic. `Part1` sums into an `i32` and `Part1Chain` into a
  `u32`, so each requires few enough lines that no sum of values of at most
  99 can leave that type.
- Comparators. `SortBy` requires its comparator to be a total preorder;
  every comparator of the exercise is one.
- The demonstrations. `AsciiBytes` takes ASCII text only, as every literal
  of `first_word`'s `main` is. `SortPeople`, `SortPeopleByAge` and
  `SortPeopleByAgeAscending` take the three people built in `main`.

Part 2 of the puzzle also counts spelled-out digits ("one" to "nine"). The
code has no such mode, only an unused three-element `NUM_STRINGS` table, so
the model has none either.

## Model

| member | source | states |
|---|---|---|
| Text.Lines | advent_code23/day_1/src/main.rs:8 | no line of `str::lines` holds a `'\n'`, and there are no lines exactly when the text is empty |
| Text.LinesOfTerminated | csv_proc/src/main.rs:11 | splitting lines that were each ended by `'\n'` gives back exactly those lines, when none holds a `'\n'` or ends in `'\r'` |
| Text.LinesAppend | csv_proc/src/main.rs:4-11 | lines each ended by `'\n'`, in front of any text, come out as exactly those lines followed by the lines of the text |
| Text.LinesOfTerminatedThen | csv_proc/src/main.rs:4-11 | a last line with no `'\n'` after it, such as `Invalid, data`, is kept as a line |
| Text.LinesOfOne | csv_proc/src/main.rs:4-11 | a nonempty text without `'\n'` is one line |
| Text.LinesCRLF | advent_code23/day_1/src/main.rs:8 | a line ended by `"\r\n"` loses both characters, and the lines after it are those of the rest |
| Text.LinesFirstLine | advent_code23/day_1/src/main.rs:8 | the first line is the text before the first `'\n'`, less one `'\r'` at its end, followed by the lines of the rest |
| Text.Reverse | advent_code23/day_1/src/main.rs:29 | `.rev()` gives the same length, with element `k` taken from position `len - 1 - k` |
| Text.IndexOfFound | csv_proc/src/main.rs:18 | the search for a separator finds it exactly when it occurs |
| Calibration.IsDigit | advent_code23/day_1/src/main.rs:12-13 | no contract; the test `'0' <= chars && chars <= '9'`, which is also the set `to_digit(10)` accepts at lines 28-29; fixed by `NoValueWithoutDigit` and `FindDigitIsFirst` |
| Calibration.DigitValue | advent_code23/day_1/src/main.rs:13 | `chars as i32 - '0' as i32` of a digit lies in 0..9 |
| Calibration.FindDigit | advent_code23/day_1/src/main.rs:28-29 | no contract; `find_map(to_digit)`, fixed by `FindDigitIsFirst` and `DigitsReverse` |
| Calibration.ChainLineValue | advent_code23/day_1/src/main.rs:27-31 | no contract; `part_1`'s closure, fixed by `ChainAgreesWithCollect` |
| Calibration.Plus | advent_code23/day_1/src/main.rs:20 | no contract; adding two values that may be a panic, fixed by `SumPanicsIff` and `SumOfValues` |
| Calibration.Sum | advent_code23/day_1/src/main.rs:20 | no contract; `end_vec.iter().sum()`, tied to `SumLineValues` by `SumOfValues` |
| Calibration.SumLineValues | advent_code23/day_1/src/main.rs:17-20 | no contract; the sum at line 20 (and at line 32), fixed by `SumPanicsIff`, `SumOfValues`, `SumAppend` and `SumPermutation` |
| Calibration.Digits | advent_code23/day_1/src/main.rs:9-15 | the collected digits are no more than the characters of the line, each in 0..9 |
| Calibration.LineValue | advent_code23/day_1/src/main.rs:16 | every line value lies in 0..99 |
| Calibration.LineValueByIndex | advent_code23/day_1/src/main.rs:12-16 | the value is `10 * first digit + last digit`, for the digit positions `i` (first) and `j` (last) of the line |
| Calibration.NoValueWithoutDigit | advent_code23/day_1/src/main.rs:16 | a line panics exactly when it holds no character in `'0'..='9'` |
| Calibration.SingleDigit | advent_code23/day_1/src/main.rs:16 | a line with exactly one digit `d` is worth `11 * d` |
| Calibration.NonDigitsIrrelevant | advent_code23/day_1/src/main.rs:12 | inserting or removing non-digit characters anywhere does not change the value |
| Calibration.DigitsReverse | advent_code23/day_1/src/main.rs:29 | the digits of the reversed line are the reversed digits of the line |
| Calibration.FindDigitIsFirst | advent_code23/day_1/src/main.rs:28 | `find_map(to_digit)` returns the first of the digits `part1` collects, and `None` when there is none |
| Calibration.ChainAgreesWithCollect | advent_code23/day_1/src/main.rs:27-31 | `part_1`'s front and back `find_map` gives the same value (or the same panic) as `part1`'s collect-then-index, on every line |
| Calibration.TotalsAgree | advent_code23/day_1/src/main.rs:24-33 | the two totals agree on every sequence of lines |
| Calibration.SumPanicsIff | advent_code23/day_1/src/main.rs:8-18 | the total panics exactly when some line panics |
| Calibration.SumOfValues | advent_code23/day_1/src/main.rs:20 | when every line has a value, the total is the sum of those values |
| Calibration.SumFailsAt | advent_code23/day_1/src/main.rs:16 | one line without a digit makes the whole total panic |
| Calibration.SumAppend | advent_code23/day_1/src/main.rs:32 | the total of two runs of lines put together is the sum of their totals |
| Calibration.DigitsAppend | advent_code23/day_1/src/main.rs:11-15 | the digits of two pieces of text put together are the digits of the first followed by those of the second |
| Calibration.SumRemove | advent_code23/day_1/src/main.rs:20 | the total is the value of any one line plus the total of the others |
| Calibration.SumPermutation | advent_code23/day_1/src/main.rs:20 | reordering the lines does not change the total |
| Calibration.SumBound | advent_code23/day_1/src/main.rs:20 | a total is at most `99` times the number of lines |
| Calibration.Part1 | advent_code23/day_1/src/main.rs:6-22 | the nested loops give the sum of the line values, or a panic exactly when one line has no digit; the total fits in an `i32` |
| Calibration.Part1Chain | advent_code23/day_1/src/main.rs:24-33 | the iterator chain gives the same total as `part1`, which fits in a `u32` |
| Calibration.ExampleDigits | advent_code23/day_1/src/main.rs:12-16 | `"a1b2c3"` is worth 13 |
| Calibration.ExampleSingle | advent_code23/day_1/src/main.rs:16 | `"7"` is worth 77 |
| Calibration.ExampleFirstLine | advent_code23/day_1/src/main.rs:12-16 | `"1abc2"` is worth 12 |
| Calibration.ExampleSecondLine | advent_code23/day_1/src/main.rs:12-16 | `"pqr3stu8vwx"` is worth 38 |
| Calibration.ExampleTotal | advent_code23/day_1/src/main.rs:20 | `"1abc2"` and `"pqr3stu8vwx"` total 50 |
| FirstWord.WordOf | functions_rust/src/main.rs:61-69 | no contract; the reference definition, fixed by `WordOfCharacterized` |
| FirstWord.WordOfCharacterized | functions_rust/src/main.rs:63-68 | a word is the first word exactly when it is a prefix, holds no space, and is followed by a space or by the end of the input |
| FirstWord.FirstWord | functions_rust/src/main.rs:61-69 | the result is a prefix of the input, holds no space, is followed by a space unless it is the whole input, and is the reference `WordOf` |
| FirstWord.WordOfIdempotent | functions_rust/src/main.rs:61-69 | the first word of a first word is itself |
| FirstWord.WordOfWithoutSpace | functions_rust/src/main.rs:68 | without a space the result is the whole input |
| FirstWord.WordOfBeforeSpace | functions_rust/src/main.rs:64-65 | with a space, the result is exactly the bytes before the first one |
| FirstWord.OnlySpaceDelimits | functions_rust/src/main.rs:64 | every byte before the first space, other whitespace included, is kept in the word |
| FirstWord.HelloFirst | functions_rust/src/main.rs:74-90 | the first word of `"hello …"`, whole or cut to six bytes, is `"hello"` |
| FirstWord.HelloExample | functions_rust/src/main.rs:71-92 | `main` prints the length 5 and the word `"hello"` |
| Csv.IsWhitespace | csv_proc/src/main.rs:14-18 | no contract; `char::is_whitespace`, the 25 characters of the Unicode White_Space property that `trim` removes |
| Csv.TrimStart | csv_proc/src/main.rs:18 | no contract; the leading half of `trim`, fixed by `TrimStartFacts` |
| Csv.TrimEnd | csv_proc/src/main.rs:18 | no contract; the trailing half of `trim`, fixed by `TrimEndFacts` |
| Csv.Trim | csv_proc/src/main.rs:18 | no contract; `str::trim`, fixed by `TrimSpan`, `TrimIsTrimmed`, `TrimEmpty` and `TrimIdempotent` |
| Csv.TrimStartFacts | csv_proc/src/main.rs:18 | trimming the start leaves a suffix that is empty or starts with other than whitespace, and removes only whitespace |
| Csv.TrimEndFacts | csv_proc/src/main.rs:18 | trimming the end leaves a prefix that is empty or ends with other than whitespace, and removes only whitespace |
| Csv.TrimIsTrimmed | csv_proc/src/main.rs:18 | a trimmed field neither starts nor ends with whitespace |
| Csv.TrimEmpty | csv_proc/src/main.rs:14 | a line trims to nothing exactly when it is all whitespace |
| Csv.TrimSpan | csv_proc/src/main.rs:18 | the trimmed field is a stretch of the piece with only whitespace around it |
| Csv.TrimIdempotent | csv_proc/src/main.rs:18 | trimming twice is trimming once |
| Csv.Split | csv_proc/src/main.rs:18 | `split` always gives at least one piece |
| Csv.SplitPiecesLackSep | csv_proc/src/main.rs:18 | no piece holds a comma |
| Csv.JoinSplit | csv_proc/src/main.rs:18 | the pieces joined with commas give back the line |
| Csv.SplitJoin | csv_proc/src/main.rs:18 | pieces without commas, joined, split back into the same pieces |
| Csv.SplitCount | csv_proc/src/main.rs:18 | a line has one piece more than it has commas |
| Csv.SplitFirst | csv_proc/src/main.rs:23 | the first piece is the text before the first comma |
| Csv.TrimAll | csv_proc/src/main.rs:18 | `.map(trim)` keeps one field per piece |
| Csv.TrimAllAt | csv_proc/src/main.rs:18 | field `k` is piece `k`, trimmed |
| Csv.FieldAt | csv_proc/src/main.rs:18 | there are as many fields as pieces, and field `k` is piece `k`, trimmed |
| Csv.SplitOnce | csv_proc/src/main.rs:18 | a line whose first comma follows `p` splits into `p` and the pieces of the rest |
| Csv.SplitNone | csv_proc/src/main.rs:18 | a line without a comma is one piece |
| Csv.Fields | csv_proc/src/main.rs:18 | no contract; the collected fields, fixed by `FieldsShape` and `FieldAt` |
| Csv.FieldsShape | csv_proc/src/main.rs:18 | the field count is the comma count plus one, and each field is its piece, trimmed |
| Csv.IsBlank | csv_proc/src/main.rs:14 | no contract; `records.trim().len() == 0`, fixed by `TrimEmpty`: a line is blank exactly when it is all whitespace |
| Csv.LineAction | csv_proc/src/main.rs:14-26 | no contract; the loop body for one line, fixed by `LineActionCases` |
| Csv.Body | csv_proc/src/main.rs:13-27 | no contract; the lines after the header, fixed by `BodyAppend` and `BlankLineSkippedInBody` |
| Csv.Process | csv_proc/src/main.rs:13-27 | no contract; the whole loop, fixed by `RecordLoop`, `HeaderIgnored` and `BlankLineSkipped` |
| Csv.LineActionCases | csv_proc/src/main.rs:14-26 | a line panics exactly when it is not blank and has no comma; it is printed exactly when it is not blank, has a comma and its trimmed second field parses, with the trimmed text before the first comma as its name; a blank line is skipped |
| Csv.TwoFieldsIffComma | csv_proc/src/main.rs:18-24 | `fields[1]` exists exactly when the line holds a comma |
| Csv.EmitCase | csv_proc/src/main.rs:18-26 | a non-blank line with a comma is printed exactly when its trimmed second piece parses, under the trimmed text before the first comma as name |
| Csv.Advance | csv_proc/src/main.rs:13-27 | one turn of the loop, by cases: a blank line and an unparsed field add nothing, a line without a comma ends the loop in a panic, and a parsed field adds its record after those already printed |
| Csv.RecordLoop | csv_proc/src/main.rs:11-27 | the loop prints exactly the records `Process` gives for the lines of the data, stopping at the first panic |
| Csv.HeaderIgnored | csv_proc/src/main.rs:14 | what line 0 holds never matters: only the lines after it are looked at |
| Csv.BlankLineSkipped | csv_proc/src/main.rs:14 | inserting a blank line anywhere after the header changes nothing |
| Csv.BlankLineSkippedInBody | csv_proc/src/main.rs:14-16 | a blank line among the lines after the header changes nothing |
| Csv.BodyAppend | csv_proc/src/main.rs:13 | the records of two runs of lines are those of the first followed by those of the second, unless the first panics: records come out in line order |
| Csv.InvalidLineNotBlank | csv_proc/src/main.rs:10-14 | the line `"Invalid, data"` is not blank |
| Csv.InvalidLineSplit | csv_proc/src/main.rs:10-18 | `"Invalid, data"` splits into `"Invalid"` and `" data"` |
| Csv.InvalidLineFields | csv_proc/src/main.rs:10-18 | the second piece of `"Invalid, data"`, `" data"`, trims to `"data"` |
| Csv.InvalidDataSkipped | csv_proc/src/main.rs:10-26 | the line `"Invalid, data"` prints nothing when `"data"` does not parse |
| SortVectors.SortBy | projects/sort_vectors/src/main.rs:5 | the sorted array is ordered by the comparator and is a permutation of the original |
| SortVectors.SortedUnique | projects/sort_vectors/src/main.rs:6 | under a comparator that calls no two different items equal, two sorted orders of the same items are equal |
| SortVectors.IntCmp | projects/sort_vectors/src/main.rs:5 | no contract; `Ord` on integers, fixed by `IntCmpIsTotalOrder` |
| SortVectors.IntCmpIsTotalOrder | projects/sort_vectors/src/main.rs:5 | `Ord` on integers is a total order, equal only on equal integers |
| SortVectors.StringCmp | projects/sort_vectors/src/main.rs:21 | no contract; `Ord` on `String`, fixed by `StringCmpIsTotalOrder` and `NamesInOrder` |
| SortVectors.StringCmpEqual | projects/sort_vectors/src/main.rs:21 | `String` comparison says `Equal` exactly on equal strings |
| SortVectors.StringCmpFlip | projects/sort_vectors/src/main.rs:21 | `a > b` exactly when `b < a` |
| SortVectors.StringCmpTransitive | projects/sort_vectors/src/main.rs:21 | `a <= b` and `b <= c` give `a <= c` |
| SortVectors.StringCmpIsTotalOrder | projects/sort_vectors/src/main.rs:21 | `String` comparison is a total order |
| SortVectors.NewPerson | projects/sort_vectors/src/main.rs:25-27 | `Person::new` stores the name and the age unchanged |
| SortVectors.PersonCmp | projects/sort_vectors/src/main.rs:19-22 | no contract; the derived `Ord`, fixed by `PersonCmpLexicographic` and `PersonCmpIsTotalOrder` |
| SortVectors.PersonCmpLexicographic | projects/sort_vectors/src/main.rs:19-22 | the derived order compares names first and ages only between equal names, and says `Equal` exactly on equal people |
| SortVectors.PersonCmpIsTotalOrder | projects/sort_vectors/src/main.rs:19 | the derived order is a total order |
| SortVectors.AgeDescending | projects/sort_vectors/src/main.rs:49 | no contract; the comparator of line 49, fixed by `SortedByAgeDescending` and `AgeDescendingIsTotalPreorder` |
| SortVectors.AgeAscending | projects/sort_vectors/src/main.rs:49 | no contract; the corrected comparator of line 49, fixed by `AgeAscendingIsTotalPreorder` and `OnlyYoungestFirst` |
| SortVectors.SortedByAgeDescending | projects/sort_vectors/src/main.rs:49 | sorted by the comparator of line 49 means exactly that the ages never increase |
| SortVectors.AgeDescendingIsTotalPreorder | projects/sort_vectors/src/main.rs:49 | the comparator of line 49 is a valid comparator |
| SortVectors.AgeAscendingIsTotalPreorder | projects/sort_vectors/src/main.rs:49 | the corrected comparator of line 49, `a.age.cmp(&b.age)`, used by `PeopleDemoCorrected`, is a valid comparator |
| SortVectors.IntegersSorted | projects/sort_vectors/src/main.rs:6 | `[1, 2, 4, 5, 31]` is in order |
| SortVectors.IntegersPermuted | projects/sort_vectors/src/main.rs:4-6 | `[1, 4, 5, 2, 31]` and `[1, 2, 4, 5, 31]` hold the same integers |
| SortVectors.SortVecIntegers | projects/sort_vectors/src/main.rs:3-7 | `[1, 4, 5, 2, 31]` sorts to `[1, 2, 4, 5, 31]`, so the `assert_eq!` holds |
| SortVectors.NamesInOrder | projects/sort_vectors/src/main.rs:32-34 | `"Mark" < "Noe" < "Tomi"` |
| SortVectors.SortedThree | projects/sort_vectors/src/main.rs:37-58 | three items that a valid comparator puts strictly in the order `x`, `y`, `z` sort in that order only |
| SortVectors.OnlyNameOrder | projects/sort_vectors/src/main.rs:36-37 | in the derived order the three people of `main` have the one sorted order Mark, Noe, Tomi |
| SortVectors.ExpectationsDiffer | projects/sort_vectors/src/main.rs:39-58 | neither vector expected by an `assert_eq!` is the one its sort computes |
| SortVectors.SortPeople | projects/sort_vectors/src/main.rs:37-46 | `people.sort()` gives Mark, Noe, Tomi, which is not the vector expected at line 39 |
| SortVectors.OnlyOldestFirst | projects/sort_vectors/src/main.rs:48-49 | oldest first, the three people have the one order Tomi, Mark, Noe |
| SortVectors.SortPeopleByAge | projects/sort_vectors/src/main.rs:49-58 | `sort_by(b.age.cmp(&a.age))` leaves the ages non-increasing, Tomi, Mark, Noe, which is not the vector expected at line 51 |
| SortVectors.OnlyYoungestFirst | projects/sort_vectors/src/main.rs:51-58 | youngest first, the three people have the one order Noe, Mark, Tomi, the vector expected at line 51 |
| SortVectors.SortPeopleByAgeAscending | projects/sort_vectors/src/main.rs:51-58 | sorting by ascending age gives exactly the vector expected at line 51 |
| SortVectors.MainPeople | projects/sort_vectors/src/main.rs:31-35 | the vector built by `Person::new` is Mark (31), Noe (23), Tomi (32) |
| SortVectors.PeopleDemo | projects/sort_vectors/src/main.rs:30-46 | `main` as written fails its `assert_eq!` at line 39 |
| SortVectors.PeopleDemoCorrected | projects/sort_vectors/src/main.rs:30-59 | with the expectation at line 39 in name order and the comparator at line 49 ascending, `main` completes |

## Left out

- File and console I/O: `read_to_string`, `include_str!` and the `println!` calls of day 1 are left out. `Part1` takes the file's contents and `Part1Chain` the included text.
- The prints of `first_word`'s `main` are left out. `HelloExample` returns the length and the word that it prints.
- `println!`, the debug `eprint!` and `env::set_var` of the CSV exercise are left out. The records that would be printed are the output of `RecordLoop`.
- `parse::<f32>`: floating point is not modelled. The parser is the parameter `parse`, and a field parses when it returns `Some`.
- `sort_vec_floats` (`partial_cmp` on floats) is left out, because the model has no floating point.
- `SortBy`: it is an insertion sort. Rust's `sort` is a stable merge sort, so stability is not stated: equal items may come out in any order. For every sort in the exercise no two different items compare equal, and there `SortedUnique` fixes the result whatever the algorithm. `SortBy` also requires its comparator to be a total preorder, which Rust's `sort_by` does not demand: for any other comparator Rust gives an unspecified order, or may panic, and the model says nothing about that case. Every comparator of the exercise meets the requirement (`IntCmpIsTotalOrder`, `PersonCmpIsTotalOrder`, `AgeDescendingIsTotalPreorder`, `AgeAscendingIsTotalPreorder`).
- `NUM_STRINGS` and the digit-word mode are left out: the mode is not implemented and the table is unused.
- `Part1`, `Part1Chain`: the `i32` and `u32` accumulators are not given wrap-around semantics. The line counts are bounded instead, by `MAX_LINES_I32` and `MAX_LINES_U32`.
- Characters are Unicode scalar values, as in Rust's `chars()`. `trim` removes exactly the characters with the Unicode White_Space property, which is what Rust's `char::is_whitespace` tests. UTF-8 byte lengths are not modelled: the `trim().len() == 0` test is only ever compared with zero, so counting characters gives the same answer.
- `first_word` slices by byte index, so `&s[0..i]` there could only panic off a character boundary, and a space never lies inside a multi-byte character. The model therefore works on bytes, and that panic cannot arise.
- The other crates of the repository (guessing game, HTTP endpoint, `hello`, `struct_exemple`) and commented-out code are not part of this model.
- `PeopleDemo`: `main` panics at line 39, so the statements after it never run. `PeopleDemo` stops there, and `SortPeopleByAge` states what lines 49-58 would compute.

## Findings

| source | as written | input that shows it | evidently intended | confidence | as-written member | corrected member |
|---|---|---|---|---|---|---|
| projects/sort_vectors/src/main.rs:39-46 | after `people.sort()` the vector is expected to be Mark, Tomi, Noe | the people Mark (31), Noe (23), Tomi (32) of lines 31-35: the derived order sorts by name, giving Mark, Noe, Tomi | expect the name order Mark, Noe, Tomi, as the comment at line 36 says | not executed | SortVectors.SortPeople | SortVectors.PeopleDemoCorrected |
| projects/sort_vectors/src/main.rs:49-58 | the comparator `b.age.cmp(&a.age)` is followed by an expected youngest-first vector, Noe, Mark, Tomi | the same three people: the comparator puts the oldest first, Tomi, Mark, Noe | compare `a.age` with `b.age`, which gives the expected vector | not executed | SortVectors.SortPeopleByAge | SortVectors.SortPeopleByAgeAscending |
