/** The sorting exercise: `Vec::sort` on integers, on `Person` under its
    derived `Ord` (name, then age), and `sort_by` with a comparator on ages.
    All three reorder a vector in place; here one in-place sort, generic in
    its comparator, does each of them. */
module SortVectors {

  /** `std::cmp::Ordering`. */
  datatype Ordering = Less | Equal | Greater

  /** What `sort_by` demands of its comparator: a total order, in which
      items may compare `Equal` without being the same. */
  ghost predicate IsTotalPreorder<T(!new)>(cmp: (T, T) -> Ordering)
  {
    && (forall x, y :: cmp(x, y) == Greater <==> cmp(y, x) == Less)
    && (forall x, y, z :: cmp(x, y) != Greater && cmp(y, z) != Greater ==> cmp(x, z) != Greater)
  }

  /** No item is `Greater` than one after it. */
  ghost predicate SortedBy<T>(s: seq<T>, cmp: (T, T) -> Ordering)
  {
    forall i, j :: 0 <= i < j < |s| ==> cmp(s[i], s[j]) != Greater
  }

  // ---------------------------------------------------------------------
  // The in-place sort

  /** Sorts `a` in place so that it is ordered by `cmp` and holds the same
      items as before. */
  method SortBy<T(!new)>(a: array<T>, cmp: (T, T) -> Ordering)
    requires IsTotalPreorder(cmp)
    modifies a
    ensures SortedBy(a[..], cmp)
    ensures multiset(a[..]) == multiset(old(a[..]))
  {
    for i := 0 to a.Length
      invariant SortedBy(a[..i], cmp)
      invariant multiset(a[..]) == multiset(old(a[..]))
    {
      Insert(a, i, cmp);
    }
    assert a[..a.Length] == a[..];
  }

  /** Moves `a[i]` left into the sorted prefix `a[..i]`. */
  method Insert<T(!new)>(a: array<T>, i: nat, cmp: (T, T) -> Ordering)
    requires IsTotalPreorder(cmp)
    requires i < a.Length && SortedBy(a[..i], cmp)
    modifies a
    ensures SortedBy(a[..i + 1], cmp)
    ensures multiset(a[..]) == multiset(old(a[..]))
    ensures a[i + 1..] == old(a[i + 1..])
  {
    var j: nat := i;
    InsertStarts(a[..], i, cmp);
    while j > 0 && cmp(a[j - 1], a[j]) == Greater
      invariant Inserting(a[..], i, j, cmp)
      invariant multiset(a[..]) == multiset(old(a[..]))
      invariant a[i + 1..] == old(a[i + 1..])
    {
      ghost var s := a[..];
      InsertSwaps(s, i, j, cmp);
      a[j - 1], a[j] := a[j], a[j - 1];
      assert a[..] == s[j - 1 := s[j]][j := s[j - 1]];
      j := j - 1;
    }
    InsertEnds(a[..], i, j, cmp);
  }

  /** While `Insert` moves the item now at `j` left: the first `i + 1` items
      are in order apart from the one at `j`, which is in order with all
      after it. */
  ghost predicate Inserting<T>(s: seq<T>, i: nat, j: nat, cmp: (T, T) -> Ordering)
  {
    && j <= i < |s|
    && (forall p, q :: 0 <= p < q <= i && p != j && q != j ==> cmp(s[p], s[q]) != Greater)
    && (forall q :: j < q <= i ==> cmp(s[j], s[q]) != Greater)
  }

  lemma InsertStarts<T>(s: seq<T>, i: nat, cmp: (T, T) -> Ordering)
    requires i < |s| && SortedBy(s[..i], cmp)
    ensures Inserting(s, i, i, cmp)
  {
    forall p, q | 0 <= p < q <= i && p != i && q != i ensures cmp(s[p], s[q]) != Greater {
      assert s[p] == s[..i][p] && s[q] == s[..i][q];
    }
  }

  lemma InsertSwaps<T(!new)>(s: seq<T>, i: nat, j: nat, cmp: (T, T) -> Ordering)
    requires IsTotalPreorder(cmp)
    requires Inserting(s, i, j, cmp) && j > 0 && cmp(s[j - 1], s[j]) == Greater
    ensures Inserting(s[j - 1 := s[j]][j := s[j - 1]], i, j - 1, cmp)
  {
    var t := s[j - 1 := s[j]][j := s[j - 1]];
    forall p, q | 0 <= p < q <= i && p != j - 1 && q != j - 1
      ensures cmp(t[p], t[q]) != Greater
    {
      if q == j {
        assert cmp(s[p], s[j - 1]) != Greater;
      } else if p == j {
        assert cmp(s[j - 1], s[q]) != Greater;
      }
    }
    forall q | j - 1 < q <= i ensures cmp(t[j - 1], t[q]) != Greater {
      if q == j {
        assert cmp(s[j], s[j - 1]) == Less;
      } else {
        assert cmp(s[j], s[q]) != Greater;
      }
    }
  }

  lemma InsertEnds<T(!new)>(s: seq<T>, i: nat, j: nat, cmp: (T, T) -> Ordering)
    requires IsTotalPreorder(cmp)
    requires Inserting(s, i, j, cmp) && (j == 0 || cmp(s[j - 1], s[j]) != Greater)
    ensures SortedBy(s[..i + 1], cmp)
  {
    var r := s[..i + 1];
    forall p, q | 0 <= p < q < |r| ensures cmp(r[p], r[q]) != Greater {
      assert r[p] == s[p] && r[q] == s[q];
      if q == j && p < j - 1 {
        assert cmp(s[p], s[j - 1]) != Greater;
      }
    }
  }

  /** No two different items of `s` compare `Equal`. */
  ghost predicate NoTies<T>(s: seq<T>, cmp: (T, T) -> Ordering)
  {
    forall i, j :: 0 <= i < |s| && 0 <= j < |s| && cmp(s[i], s[j]) == Equal ==> s[i] == s[j]
  }

  /** Under a comparator that calls no two different items `Equal`, a sorted
      order of a collection is the only one: two sorted sequences with the
      same items are equal. */
  lemma {:induction false} SortedUnique<T(!new)>(s: seq<T>, t: seq<T>, cmp: (T, T) -> Ordering)
    requires IsTotalPreorder(cmp)
    requires SortedBy(s, cmp) && SortedBy(t, cmp)
    requires multiset(s) == multiset(t)
    requires NoTies(s, cmp)
    ensures s == t
    decreases |s|
  {
    if s != [] {
      HeadsAgree(s, t, cmp);
      TailsAgree(s, t, cmp);
      SortedUnique(s[1..], t[1..], cmp);
      assert s == [s[0]] + s[1..];
      assert t == [t[0]] + t[1..];
    }
  }

  /** Two sorted sequences with the same items and no ties start alike. */
  lemma HeadsAgree<T(!new)>(s: seq<T>, t: seq<T>, cmp: (T, T) -> Ordering)
    requires IsTotalPreorder(cmp)
    requires SortedBy(s, cmp) && SortedBy(t, cmp)
    requires multiset(s) == multiset(t) && s != []
    requires NoTies(s, cmp)
    ensures t != [] && s[0] == t[0]
  {
    assert s[0] in multiset(t);
    var k :| 0 <= k < |t| && t[k] == s[0];
    assert t[0] in multiset(s);
    var m :| 0 <= m < |s| && s[m] == t[0];
    var x, y := s[0], t[0];
    assert cmp(x, y) != Greater by {
      if m == 0 {
        assert cmp(x, x) != Greater;
      } else {
        assert cmp(s[0], s[m]) != Greater;
      }
    }
    assert cmp(y, x) != Greater by {
      if k == 0 {
        assert cmp(y, y) != Greater;
      } else {
        assert cmp(t[0], t[k]) != Greater;
      }
    }
    assert cmp(x, y) == Equal;
    assert cmp(s[0], s[m]) == Equal;
  }

  lemma DropFirst<T>(s: seq<T>)
    requires s != []
    ensures multiset(s[1..]) == multiset(s) - multiset{s[0]}
  {
    assert s == [s[0]] + s[1..];
    assert multiset(s) == multiset{s[0]} + multiset(s[1..]);
  }

  /** What is left after the common first item is again sorted, the same
      items, and without ties. */
  lemma TailsAgree<T(!new)>(s: seq<T>, t: seq<T>, cmp: (T, T) -> Ordering)
    requires SortedBy(s, cmp) && SortedBy(t, cmp)
    requires multiset(s) == multiset(t) && s != [] && t != [] && s[0] == t[0]
    requires NoTies(s, cmp)
    ensures SortedBy(s[1..], cmp) && SortedBy(t[1..], cmp)
    ensures multiset(s[1..]) == multiset(t[1..])
    ensures NoTies(s[1..], cmp)
  {
    assert s == [s[0]] + s[1..];
    assert t == [t[0]] + t[1..];
    DropFirst(s);
    DropFirst(t);
    var r := s[1..];
    forall i, j | 0 <= i < |r| && 0 <= j < |r| && cmp(r[i], r[j]) == Equal
      ensures r[i] == r[j]
    {
      assert r[i] == s[i + 1] && r[j] == s[j + 1];
    }
    forall i, j | 0 <= i < j < |r| ensures cmp(r[i], r[j]) != Greater {
      assert r[i] == s[i + 1] && r[j] == s[j + 1];
    }
    var u := t[1..];
    forall i, j | 0 <= i < j < |u| ensures cmp(u[i], u[j]) != Greater {
      assert u[i] == t[i + 1] && u[j] == t[j + 1];
    }
  }

  // ---------------------------------------------------------------------
  // Comparators

  /** `Ord::cmp` on integers. */
  function IntCmp(x: int, y: int): Ordering
  {
    if x < y then Less else if x > y then Greater else Equal
  }

  lemma IntCmpIsTotalOrder()
    ensures IsTotalPreorder(IntCmp)
    ensures forall x, y :: IntCmp(x, y) == Equal <==> x == y
  {
  }

  /** `Ord::cmp` on `String`: lexicographic, a proper prefix first. Rust
      compares the UTF-8 bytes, which orders strings the same way as their
      characters. */
  function StringCmp(a: string, b: string): Ordering
  {
    if a == [] && b == [] then Equal
    else if a == [] then Less
    else if b == [] then Greater
    else if a[0] < b[0] then Less
    else if a[0] > b[0] then Greater
    else StringCmp(a[1..], b[1..])
  }

  lemma {:induction false} StringCmpEqual(a: string, b: string)
    ensures StringCmp(a, b) == Equal <==> a == b
  {
    if a != [] && b != [] && a[0] == b[0] {
      StringCmpEqual(a[1..], b[1..]);
      assert a == [a[0]] + a[1..];
      assert b == [b[0]] + b[1..];
    }
  }

  lemma {:induction false} StringCmpFlip(a: string, b: string)
    ensures StringCmp(a, b) == Greater <==> StringCmp(b, a) == Less
  {
    if a != [] && b != [] && a[0] == b[0] {
      StringCmpFlip(a[1..], b[1..]);
    }
  }

  lemma {:induction false} StringCmpTransitive(a: string, b: string, c: string)
    requires StringCmp(a, b) != Greater && StringCmp(b, c) != Greater
    ensures StringCmp(a, c) != Greater
  {
    if a != [] && b != [] && c != [] && a[0] == b[0] == c[0] {
      StringCmpTransitive(a[1..], b[1..], c[1..]);
    }
  }

  lemma StringCmpIsTotalOrder()
    ensures IsTotalPreorder(StringCmp)
    ensures forall a, b :: StringCmp(a, b) == Equal <==> a == b
  {
    forall a, b ensures StringCmp(a, b) == Greater <==> StringCmp(b, a) == Less {
      StringCmpFlip(a, b);
    }
    forall a, b, c | StringCmp(a, b) != Greater && StringCmp(b, c) != Greater
      ensures StringCmp(a, c) != Greater
    {
      StringCmpTransitive(a, b, c);
    }
    forall a, b ensures StringCmp(a, b) == Equal <==> a == b {
      StringCmpEqual(a, b);
    }
  }

  /** Values of Rust's `u32`. */
  type u32 = x: int | 0 <= x < 0x1_0000_0000

  datatype Person = Person(name: string, age: u32)

  /** `Person::new`: a person with the given name and age. */
  function NewPerson(name: string, age: u32): (p: Person)
    ensures p.name == name && p.age == age
  {
    Person(name, age)
  }

  /** The `Ord` that `#[derive(Ord)]` gives `Person`: the fields in
      declaration order, `name` first and `age` only between equal names. */
  function PersonCmp(p: Person, q: Person): Ordering
  {
    match StringCmp(p.name, q.name)
    case Equal => IntCmp(p.age, q.age)
    case other => other
  }

  /** The derived order is lexicographic: `p` comes first exactly when its
      name does, or the names are the same and its age is lower. */
  lemma PersonCmpLexicographic(p: Person, q: Person)
    ensures PersonCmp(p, q) == Less <==>
              StringCmp(p.name, q.name) == Less || (p.name == q.name && p.age < q.age)
    ensures PersonCmp(p, q) == Equal <==> p == q
  {
    StringCmpEqual(p.name, q.name);
  }

  lemma PersonCmpIsTotalOrder()
    ensures IsTotalPreorder(PersonCmp)
    ensures forall p, q :: PersonCmp(p, q) == Equal <==> p == q
  {
    StringCmpIsTotalOrder();
    forall p, q ensures PersonCmp(p, q) == Equal <==> p == q {
      PersonCmpLexicographic(p, q);
    }
  }

  /** The comparator `|a, b| b.age.cmp(&a.age)` of line 49: the older person
      first. */
  function AgeDescending(a: Person, b: Person): Ordering
  {
    IntCmp(b.age, a.age)
  }

  /** `|a, b| a.age.cmp(&b.age)`: the younger person first. */
  function AgeAscending(a: Person, b: Person): Ordering
  {
    IntCmp(a.age, b.age)
  }

  /** Sorted by `AgeDescending` means the ages never increase. */
  lemma SortedByAgeDescending(s: seq<Person>)
    ensures SortedBy(s, AgeDescending) <==> forall i, j :: 0 <= i < j < |s| ==> s[i].age >= s[j].age
  {
  }

  lemma AgeDescendingIsTotalPreorder()
    ensures IsTotalPreorder(AgeDescending)
  {
  }

  lemma AgeAscendingIsTotalPreorder()
    ensures IsTotalPreorder(AgeAscending)
  {
  }

  // ---------------------------------------------------------------------
  // The demonstrations in the exercise

  lemma IntegersSorted()
    ensures SortedBy([1, 2, 4, 5, 31], IntCmp)
  {
  }

  lemma IntegersPermuted()
    ensures multiset([1, 4, 5, 2, 31]) == multiset([1, 2, 4, 5, 31])
  {
  }

  /** `sort_vec_integers`: `[1, 4, 5, 2, 31]` sorts to `[1, 2, 4, 5, 31]`,
      as its `assert_eq!` claims. */
  method SortVecIntegers() returns (sorted: seq<int>)
    ensures sorted == [1, 2, 4, 5, 31]
  {
    var vec := new int[] [1, 4, 5, 2, 31];
    assert vec[..] == [1, 4, 5, 2, 31];
    IntCmpIsTotalOrder();
    SortBy(vec, IntCmp);
    sorted := vec[..];
    IntegersPermuted();
    IntegersSorted();
    SortedUnique(sorted, [1, 2, 4, 5, 31], IntCmp);
  }

  const Mark := Person("Mark", 31)
  const Noe := Person("Noe", 23)
  const Tomi := Person("Tomi", 32)

  /** The vector `main` expects after `people.sort()` (lines 39-46). */
  const ExpectedAfterSort := [Mark, Tomi, Noe]
  /** The vector `main` expects after `sort_by` on ages (lines 51-58). */
  const ExpectedAfterSortBy := [Noe, Mark, Tomi]

  lemma NamesInOrder()
    ensures StringCmp("Mark", "Noe") == Less && StringCmp("Noe", "Tomi") == Less
    ensures StringCmp("Mark", "Tomi") == Less
  {
  }

  /** Three items that a comparator puts strictly in the order `x`, `y`,
      `z` have that one sorted order only. */
  lemma SortedThree<T(!new)>(s: seq<T>, x: T, y: T, z: T, cmp: (T, T) -> Ordering)
    requires IsTotalPreorder(cmp)
    requires cmp(x, y) == Less && cmp(y, z) == Less
    requires SortedBy(s, cmp) && multiset(s) == multiset{x, y, z}
    ensures s == [x, y, z]
  {
    var t := [x, y, z];
    assert cmp(y, x) == Greater;
    assert cmp(y, z) != Greater && cmp(z, x) != Greater ==> cmp(y, x) != Greater;
    assert cmp(x, z) == Less;
    assert cmp(y, x) == Greater && cmp(z, y) == Greater && cmp(z, x) == Greater;
    assert SortedBy(t, cmp);
    assert NoTies(t, cmp);
    assert multiset(t) == multiset{x, y, z};
    SortedUnique(t, s, cmp);
  }

  /** The derived order puts the people of `main` in one order only. */
  lemma OnlyNameOrder(s: seq<Person>)
    requires SortedBy(s, PersonCmp) && multiset(s) == multiset{Mark, Noe, Tomi}
    ensures s == [Mark, Noe, Tomi]
  {
    PersonCmpIsTotalOrder();
    NamesInOrder();
    assert PersonCmp(Mark, Noe) == Less && PersonCmp(Noe, Tomi) == Less;
    SortedThree(s, Mark, Noe, Tomi, PersonCmp);
  }

  /** `people.sort()` on the three people of `main`: they come out as Mark,
      Noe, Tomi, which is not the vector the `assert_eq!` at line 39
      expects. */
  method SortPeople(people: array<Person>)
    requires multiset(people[..]) == multiset{Mark, Noe, Tomi}
    modifies people
    ensures people[..] == [Mark, Noe, Tomi]
    ensures people[..] != ExpectedAfterSort
  {
    PersonCmpIsTotalOrder();
    SortBy(people, PersonCmp);
    OnlyNameOrder(people[..]);
    ExpectationsDiffer();
  }

  /** Neither expected vector of `main` is what its sort computes. */
  lemma ExpectationsDiffer()
    ensures [Mark, Noe, Tomi] != ExpectedAfterSort
    ensures [Tomi, Mark, Noe] != ExpectedAfterSortBy
  {
    assert [Mark, Noe, Tomi][1] != ExpectedAfterSort[1];
    assert [Tomi, Mark, Noe][0] != ExpectedAfterSortBy[0];
  }

  /** Oldest first, the people of `main` have one order only. */
  lemma OnlyOldestFirst(s: seq<Person>)
    requires SortedBy(s, AgeDescending) && multiset(s) == multiset{Mark, Noe, Tomi}
    ensures s == [Tomi, Mark, Noe]
  {
    AgeDescendingIsTotalPreorder();
    assert multiset{Mark, Noe, Tomi} == multiset{Tomi, Mark, Noe};
    SortedThree(s, Tomi, Mark, Noe, AgeDescending);
  }

  /** `people.sort_by(|a, b| b.age.cmp(&a.age))`: the ages come out
      non-increasing, Tomi (32), Mark (31), Noe (23), not the ascending
      vector the `assert_eq!` at line 51 expects. */
  method SortPeopleByAge(people: array<Person>)
    requires multiset(people[..]) == multiset{Mark, Noe, Tomi}
    modifies people
    ensures forall i, j :: 0 <= i < j < people.Length ==> people[i].age >= people[j].age
    ensures people[..] == [Tomi, Mark, Noe]
    ensures people[..] != ExpectedAfterSortBy
  {
    AgeDescendingIsTotalPreorder();
    SortBy(people, AgeDescending);
    SortedByAgeDescending(people[..]);
    OnlyOldestFirst(people[..]);
    ExpectationsDiffer();
  }

  /** Youngest first, the people of `main` have one order only: the one
      expected at line 51. */
  lemma OnlyYoungestFirst(s: seq<Person>)
    requires SortedBy(s, AgeAscending) && multiset(s) == multiset{Mark, Noe, Tomi}
    ensures s == ExpectedAfterSortBy
  {
    AgeAscendingIsTotalPreorder();
    assert multiset{Mark, Noe, Tomi} == multiset{Noe, Mark, Tomi};
    SortedThree(s, Noe, Mark, Tomi, AgeAscending);
  }

  /** `sort_by(|a, b| a.age.cmp(&b.age))` on the three people: Noe, Mark,
      Tomi, the vector expected at line 51. */
  method SortPeopleByAgeAscending(people: array<Person>)
    requires multiset(people[..]) == multiset{Mark, Noe, Tomi}
    modifies people
    ensures people[..] == ExpectedAfterSortBy
  {
    AgeAscendingIsTotalPreorder();
    SortBy(people, AgeAscending);
    OnlyYoungestFirst(people[..]);
  }

  /** The vector built at lines 31-35. */
  lemma MainPeople()
    ensures [NewPerson("Mark", 31), NewPerson("Noe", 23), NewPerson("Tomi", 32)] == [Mark, Noe, Tomi]
    ensures multiset([Mark, Noe, Tomi]) == multiset{Mark, Noe, Tomi}
  {
  }

  /** How `main` ends: it runs to completion, or an `assert_eq!` fails. */
  datatype Outcome = Completed | AssertFailed(line: nat)

  /** `assert_eq!(actual, expected)` at `line`: passes exactly when the two
      are equal, and otherwise panics at that line. */
  function AssertEq<T(==)>(actual: T, expected: T, line: nat): (o: Outcome)
    ensures o == Completed <==> actual == expected
    ensures o != Completed ==> o == AssertFailed(line)
  {
    if actual == expected then Completed else AssertFailed(line)
  }

  /** `main` as written, up to its first check. The `assert_eq!` at line 39
      fails, so `main` panics there and lines 48-58 are never reached;
      `SortPeopleByAge` shows what they would compute. */
  method PeopleDemo() returns (outcome: Outcome)
    ensures outcome == AssertFailed(39)
  {
    var people := new Person[] [NewPerson("Mark", 31), NewPerson("Noe", 23), NewPerson("Tomi", 32)];
    MainPeople();
    assert people[..] == [Mark, Noe, Tomi];
    SortPeople(people);
    outcome := AssertEq(people[..], ExpectedAfterSort, 39);
  }

  /** `main` with the two evident corrections: the vector expected at line
      39 in name order, as the comment at line 36 describes, and the
      comparator at line 49 comparing `a.age` with `b.age`, so that the
      people are sorted by age in the order the vector at line 51 gives.
      Both checks then pass. */
  method PeopleDemoCorrected() returns (outcome: Outcome)
    ensures outcome == Completed
  {
    var people := new Person[] [NewPerson("Mark", 31), NewPerson("Noe", 23), NewPerson("Tomi", 32)];
    MainPeople();
    assert people[..] == [Mark, Noe, Tomi];
    SortPeople(people);
    var first := AssertEq(people[..], [Mark, Noe, Tomi], 39);
    SortPeopleByAgeAscending(people);
    var second := AssertEq(people[..], ExpectedAfterSortBy, 51);
    outcome := if first != Completed then first else second;
  }
}
