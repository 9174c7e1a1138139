/** Sorting the course roster and the section rosters, which share their students but are linked through
    different fields, and counting duplicate entries afterwards (grades/src/sort.c). */
module RosterSort {
  import opened RosterTable
  import opened Sequences

  // ---------------------------------------------------------------------------------------------
  // The comparison functions
  // ---------------------------------------------------------------------------------------------

  /** strcmp on strings without terminators. */
  function StrCompare(a: string, b: string): int {
    if a == [] && b == [] then 0
    else if a == [] then -1
    else if b == [] then 1
    else if a[0] != b[0] then a[0] as int - b[0] as int
    else StrCompare(a[1..], b[1..])
  }

  lemma {:induction false} StrCompareZero(a: string, b: string)
    ensures StrCompare(a, b) == 0 <==> a == b
  {
    if a != [] && b != [] && a[0] == b[0] {
      StrCompareZero(a[1..], b[1..]);
      assert a == [a[0]] + a[1..] && b == [b[0]] + b[1..];
    }
  }

  lemma {:induction false} StrCompareFlips(a: string, b: string)
    ensures StrCompare(a, b) <= 0 <==> StrCompare(b, a) >= 0
  {
    if a != [] && b != [] && a[0] == b[0] {
      StrCompareFlips(a[1..], b[1..]);
    }
  }

  lemma {:induction false} StrCompareTransitive(a: string, b: string, c: string)
    requires StrCompare(a, b) <= 0 && StrCompare(b, c) <= 0
    ensures StrCompare(a, c) <= 0
    ensures StrCompare(a, c) == 0 ==> StrCompare(a, b) == 0 && StrCompare(b, c) == 0
  {
    if a != [] && b != [] && c != [] && a[0] == b[0] == c[0] {
      StrCompareTransitive(a[1..], b[1..], c[1..]);
    } else {
      StrCompareZero(a, c);
    }
  }

  function CompareName(x: Student, y: Student): int {
    var c := StrCompare(x.surname, y.surname);
    if c != 0 then c else StrCompare(x.name, y.name)
  }

  function CompareId(x: Student, y: Student): int {
    StrCompare(x.id, y.id)
  }

  /** Highest composite first. */
  function CompareScore(x: Student, y: Student): int {
    if x.composite > y.composite then -1 else if x.composite < y.composite then 1 else 0
  }

  lemma CompareNameTransitive(x: Student, y: Student, z: Student)
    requires CompareName(x, y) <= 0 && CompareName(y, z) <= 0
    ensures CompareName(x, z) <= 0
  {
    StrCompareTransitive(x.surname, y.surname, z.surname);
    StrCompareFlips(x.surname, y.surname);
    if StrCompare(x.surname, z.surname) == 0 {
      StrCompareTransitive(x.name, y.name, z.name);
    }
  }

  /** The program only ever sorts by these three, and each is a total preorder on any students. */
  lemma ComparatorsArePreorders(elems: set<Student>)
    ensures Preorder(CompareName, elems) && Preorder(CompareId, elems) && Preorder(CompareScore, elems)
  {
    forall x | x in elems ensures CompareName(x, x) == 0 && CompareId(x, x) == 0 {
      StrCompareZero(x.surname, x.surname);
      StrCompareZero(x.name, x.name);
      StrCompareZero(x.id, x.id);
    }
    forall x, y | x in elems && y in elems
      ensures CompareName(x, y) <= 0 <==> CompareName(y, x) >= 0
      ensures CompareId(x, y) <= 0 <==> CompareId(y, x) >= 0
    {
      StrCompareFlips(x.surname, y.surname);
      StrCompareFlips(y.surname, x.surname);
      StrCompareFlips(x.name, y.name);
      StrCompareFlips(x.id, y.id);
    }
    forall x, y, z | x in elems && y in elems && z in elems && CompareName(x, y) <= 0 && CompareName(y, z) <= 0
      ensures CompareName(x, z) <= 0
    {
      CompareNameTransitive(x, y, z);
    }
    forall x, y, z | x in elems && y in elems && z in elems && CompareId(x, y) <= 0 && CompareId(y, z) <= 0
      ensures CompareId(x, z) <= 0
    {
      StrCompareTransitive(x.id, y.id, z.id);
    }
  }

  /** a comes before b in a dictionary: at the first difference it has the lesser character, or it ends there. */
  ghost predicate Precedes(a: string, b: string) {
    || a < b
    || exists k | 0 <= k < |a| && k < |b| :: a[..k] == b[..k] && a[k] < b[k]
  }

  lemma {:induction false} PrecedesIsNegative(a: string, b: string)
    requires Precedes(a, b)
    ensures StrCompare(a, b) < 0
    decreases |a|
  {
    if a != [] {
      if a[0] == b[0] {
        if !(a < b) {
          var k :| 0 <= k < |a| && k < |b| && a[..k] == b[..k] && a[k] < b[k];
          assert a[1..][..k - 1] == a[..k][1..] && b[1..][..k - 1] == b[..k][1..];
          assert a[1..][k - 1] < b[1..][k - 1];
        }
        PrecedesIsNegative(a[1..], b[1..]);
      }
    }
  }

  lemma {:induction false} NegativeIsPrecedes(a: string, b: string)
    requires StrCompare(a, b) < 0
    ensures Precedes(a, b)
    decreases |a|
  {
    if a != [] {
      assert b != [];
      if a[0] != b[0] {
        assert a[..0] == b[..0];
      } else {
        NegativeIsPrecedes(a[1..], b[1..]);
        assert a == [a[0]] + a[1..] && b == [b[0]] + b[1..];
        if !(a[1..] < b[1..]) {
          var k :| 0 <= k < |a[1..]| && k < |b[1..]| && a[1..][..k] == b[1..][..k] && a[1..][k] < b[1..][k];
          assert a[..k + 1] == [a[0]] + a[1..][..k] && b[..k + 1] == [b[0]] + b[1..][..k];
        }
      }
    }
  }

  lemma StrCompareIsOrder(a: string, b: string)
    ensures StrCompare(a, b) < 0 <==> Precedes(a, b)
    ensures StrCompare(a, b) == 0 <==> a == b
  {
    StrCompareZero(a, b);
    if Precedes(a, b) {
      PrecedesIsNegative(a, b);
    }
    if StrCompare(a, b) < 0 {
      NegativeIsPrecedes(a, b);
    }
  }

  /** In the order of names the surname decides, and the given name among equal surnames. */
  ghost predicate NamePrecedes(x: Student, y: Student) {
    Precedes(x.surname, y.surname) || (x.surname == y.surname && Precedes(x.name, y.name))
  }

  /** The three orders: by name, by id, and from the highest composite score down. */
  lemma ComparatorsAreOrders(x: Student, y: Student)
    ensures CompareName(x, y) < 0 <==> NamePrecedes(x, y)
    ensures CompareName(x, y) == 0 <==> x.surname == y.surname && x.name == y.name
    ensures CompareId(x, y) < 0 <==> Precedes(x.id, y.id)
    ensures CompareId(x, y) == 0 <==> x.id == y.id
    ensures CompareScore(x, y) < 0 <==> x.composite > y.composite
    ensures CompareScore(x, y) == 0 <==> x.composite == y.composite
  {
    StrCompareIsOrder(x.surname, y.surname);
    StrCompareIsOrder(x.name, y.name);
    StrCompareIsOrder(x.id, y.id);
  }

  /** So a roster sorted by any of them has nobody in front of somebody who precedes. */
  lemma SortedIsInOrder(s: seq<Student>, i: nat, j: nat)
    requires i < j < |s|
    ensures Sorted(s, CompareName) ==> !NamePrecedes(s[j], s[i])
    ensures Sorted(s, CompareId) ==> !Precedes(s[j].id, s[i].id)
    ensures Sorted(s, CompareScore) ==> s[i].composite >= s[j].composite
  {
    ComparatorsArePreorders({s[i], s[j]});
    ComparatorsAreOrders(s[j], s[i]);
    hide NamePrecedes, Precedes, CompareName, CompareId;
  }

  // ---------------------------------------------------------------------------------------------
  // Rosters as linked lists
  // ---------------------------------------------------------------------------------------------

  /** Which of the two link fields a roster runs through; stands for the getter and setter the sort is given. */
  datatype Link = SectionLink | CourseLink {
    function Other(): Link {
      if SectionLink? then CourseLink else SectionLink
    }
  }

  function GetNext(s: Student, link: Link): Student?
    reads s
  {
    match link
    case SectionLink => s.next
    case CourseLink => s.cnext
  }

  method SetNext(s: Student, link: Link, n: Student?)
    modifies s
    ensures GetNext(s, link) == n
    ensures GetNext(s, link.Other()) == old(GetNext(s, link.Other()))
  {
    match link
    case SectionLink => s.next := n;
    case CourseLink => s.cnext := n;
  }

  /** The member that follows position i of a null-terminated list. */
  ghost function After(chain: seq<Student>, i: int): Student?
    requires -1 <= i < |chain|
  {
    if i + 1 < |chain| then chain[i + 1] else null
  }

  /** head leads, through the given link, to exactly the students of chain and then to NULL. */
  ghost predicate IsList(head: Student?, link: Link, chain: seq<Student>)
    reads chain
  {
    && head == After(chain, -1)
    && forall i {:trigger GetNext(chain[i], link)} | 0 <= i < |chain| :: GetNext(chain[i], link) == After(chain, i)
  }

  /** A null-terminated list holds no student twice. */
  lemma {:induction false} ListIsDistinct(head: Student?, link: Link, chain: seq<Student>, i: int, j: int)
    requires IsList(head, link, chain)
    requires 0 <= i < j < |chain|
    ensures chain[i] != chain[j]
    decreases |chain| - j
  {
    assert GetNext(chain[i], link) == chain[i + 1] && GetNext(chain[j], link) == After(chain, j);
    if j + 1 < |chain| {
      ListIsDistinct(head, link, chain, i + 1, j + 1);
    }
  }

  /** And there is only one such list from a given head. */
  lemma {:induction false} ListIsUnique(head: Student?, link: Link, chain: seq<Student>, other: seq<Student>)
    requires IsList(head, link, chain) && IsList(head, link, other)
    ensures chain == other
    decreases |chain|
  {
    if chain != [] && other != [] {
      assert chain[0] == other[0] == head;
      forall i | 0 <= i < |chain[1..]| ensures GetNext(chain[1..][i], link) == After(chain[1..], i) {
        assert GetNext(chain[i + 1], link) == After(chain, i + 1);
      }
      forall i | 0 <= i < |other[1..]| ensures GetNext(other[1..][i], link) == After(other[1..], i) {
        assert GetNext(other[i + 1], link) == After(other, i + 1);
      }
      ListIsUnique(GetNext(chain[0], link), link, chain[1..], other[1..]);
      assert chain == [chain[0]] + chain[1..] && other == [other[0]] + other[1..];
    }
  }

  ghost function Members(chain: seq<Student>): set<Student> {
    set x | x in chain
  }

  method CountStudents(s: Student?, link: Link, ghost chain: seq<Student>) returns (count: nat)
    requires IsList(s, link, chain)
    ensures count == |chain|
  {
    count := 0;
    var sp := s;
    while sp != null
      invariant count <= |chain| && sp == After(chain, count - 1)
      decreases |chain| - count
    {
      sp := GetNext(sp, link);
      count := count + 1;
    }
  }

  /** The table is filled from the back, so it starts out as the reverse of the list. */
  method FillTable(s: Student, link: Link, count: nat, ghost chain: seq<Student>) returns (stab: array<Student>)
    requires IsList(s, link, chain) && count == |chain|
    ensures fresh(stab) && stab.Length == count
    ensures forall k | 0 <= k < count :: stab[k] == chain[count - 1 - k]
  {
    stab := new Student[count](_ => s);
    var sp: Student? := s;
    var i := count;
    while i > 0
      invariant 0 <= i <= count
      invariant sp == After(chain, count - i - 1)
      invariant forall k | i <= k < count :: stab[k] == chain[count - 1 - k]
    {
      i := i - 1;
      stab[i] := sp;
      sp := GetNext(sp, link);
    }
  }

  /** Relinks the students in table order; the other link of every student stays as it is. */
  method Relink(stab: array<Student>, link: Link)
    requires stab.Length > 0
    requires Distinct(stab[..])
    modifies set x | x in stab[..]
    ensures stab[..] == old(stab[..])
    ensures IsList(stab[0], link, stab[..])
    ensures forall x | x in stab[..] :: GetNext(x, link.Other()) == old(GetNext(x, link.Other()))
  {
    var sp := stab[0];
    ghost var table := stab[..];
    for i := 1 to stab.Length
      invariant stab[..] == table && sp == stab[i - 1]
      invariant forall k | 0 <= k < i - 1 :: GetNext(table[k], link) == table[k + 1]
      invariant forall x | x in table :: GetNext(x, link.Other()) == old(GetNext(x, link.Other()))
    {
      SetNext(sp, link, stab[i]);
      sp := stab[i];
    }
    SetNext(sp, link, null);
  }

  lemma ReversePermutes(s: seq<Student>, t: seq<Student>)
    requires |s| == |t| && forall k | 0 <= k < |s| :: t[k] == s[|s| - 1 - k]
    ensures multiset(s) == multiset(t)
    decreases |s|
  {
    if s != [] {
      assert s == [s[0]] + s[1..] && t == t[..|t| - 1] + [t[|t| - 1]];
      ReversePermutes(s[1..], t[..|t| - 1]);
    }
  }

  lemma DistinctPermutation(s: seq<Student>, t: seq<Student>)
    requires multiset(s) == multiset(t) && Distinct(s)
    ensures Distinct(t)
  {
    forall i, j | 0 <= i < j < |t| ensures t[i] != t[j] {
      if t[i] == t[j] {
        assert t == t[..i] + [t[i]] + t[i + 1..j] + [t[j]] + t[j + 1..];
        assert multiset(t)[t[i]] >= 2;
        AtMostOnce(s, t[i]);
      }
    }
  }

  lemma {:induction false} AtMostOnce(s: seq<Student>, x: Student)
    requires Distinct(s)
    ensures multiset(s)[x] <= 1
  {
    if s != [] {
      assert s == [s[0]] + s[1..];
      if s[0] == x {
        assert x !in s[1..];
      } else {
        AtMostOnce(s[1..], x);
      }
    }
  }

  /** The students of a non-empty list, sorted, in a table. */
  method SortedTable(s: Student, link: Link, count: nat, compare: Comparator, ghost chain: seq<Student>)
    returns (stab: array<Student>)
    requires IsList(s, link, chain) && count == |chain|
    requires Preorder(compare, Members(chain))
    ensures fresh(stab) && stab.Length == count
    ensures SortedFrom(chain, stab[..], compare) && Distinct(stab[..])
  {
    stab := FillTable(s, link, count, chain);
    ghost var table := stab[..];
    assert table[0..count] == table;
    ReversePermutes(chain, table);
    WithinPermutation(chain, table, Members(chain));
    forall i, j | 0 <= i < j < |chain| ensures chain[i] != chain[j] { ListIsDistinct(s, link, chain, i, j); }
    hide Preorder, IsList;
    ghost var calls := SortTable(stab, 0, count, compare, Members(chain));
    assert stab[..][0..count] == stab[..];
    DistinctPermutation(chain, stab[..]);
  }

  /** Turns a null-terminated list into a sorted null-terminated list of the same students, through the same
      link, and leaves the other link of every student alone. */
  method SortRoster(s: Student?, link: Link, compare: Comparator, ghost chain: seq<Student>)
    returns (r: Student?, ghost sorted: seq<Student>)
    requires IsList(s, link, chain)
    requires Preorder(compare, Members(chain))
    modifies set x | x in chain
    ensures IsList(r, link, sorted) && SortedFrom(chain, sorted, compare)
    ensures forall x | x in chain :: GetNext(x, link.Other()) == old(GetNext(x, link.Other()))
  {
    var count := CountStudents(s, link, chain);
    if count == 0 {
      return null, chain;
    }
    var stab := SortedTable(s, link, count, compare, chain);
    sorted := stab[..];
    forall x ensures x in chain <==> x in sorted { assert x in multiset(chain) <==> x in multiset(sorted); }
    hide Preorder, SortedFrom;
    Relink(stab, link);
    r := stab[0];
  }

  // ---------------------------------------------------------------------------------------------
  // All the rosters of a course
  // ---------------------------------------------------------------------------------------------

  class Section {
    var roster: Student?

    constructor (roster: Student?)
      ensures this.roster == roster
    {
      this.roster := roster;
    }
  }

  /** A course. Its list of sections does not change, so it is a sequence here. */
  class Course {
    var roster: Student?
    const sections: seq<Section>

    constructor (roster: Student?, sections: seq<Section>)
      ensures this.roster == roster && this.sections == sections
    {
      this.roster, this.sections := roster, sections;
    }
  }

  /** Every student is in at most one section, and the sections are different objects. */
  ghost predicate SectionsApart(sections: seq<Section>, rosters: seq<seq<Student>>) {
    && |rosters| == |sections|
    && (forall i, j | 0 <= i < |sections| && 0 <= j < |sections| && i != j :: sections[i] != sections[j])
    && (forall i, j, x | 0 <= i < |rosters| && 0 <= j < |rosters| && i != j && x in rosters[i] :: x !in rosters[j])
  }

  ghost function Everyone(rosters: seq<seq<Student>>): (all: set<Student>)
    ensures forall i, x | 0 <= i < |rosters| && x in rosters[i] :: x in all
  {
    set i, x | 0 <= i < |rosters| && x in rosters[i] :: x
  }

  ghost predicate SectionLists(sections: seq<Section>, rosters: seq<seq<Student>>)
    requires |sections| == |rosters|
    reads sections, Everyone(rosters)
  {
    forall k | 0 <= k < |rosters| :: IsList(sections[k].roster, SectionLink, rosters[k])
  }

  lemma ApartAfter(sections: seq<Section>, rosters: seq<seq<Student>>, k: int, one: seq<Student>)
    requires SectionsApart(sections, rosters) && 0 <= k < |rosters|
    requires forall x :: x in one <==> x in rosters[k]
    ensures SectionsApart(sections, rosters[k := one])
  {
  }

  lemma PreorderOnFewer(compare: Comparator, elems: set<Student>, fewer: set<Student>)
    requires Preorder(compare, elems) && fewer <= elems
    ensures Preorder(compare, fewer)
  {
  }

  lemma SameStudents(was: seq<Student>, s: seq<Student>, compare: Comparator)
    requires SortedFrom(was, s, compare)
    ensures forall x :: x in s <==> x in was
  {
    forall x ensures x in s <==> x in was {
      assert x in multiset(s) <==> x in multiset(was);
    }
  }

  lemma SameEveryone(rosters: seq<seq<Student>>, k: int, one: seq<Student>)
    requires 0 <= k < |rosters| && forall x :: x in one <==> x in rosters[k]
    ensures Everyone(rosters[k := one]) == Everyone(rosters)
  {
    var now := rosters[k := one];
    forall x ensures x in Everyone(now) <==> x in Everyone(rosters) {
      if x in Everyone(rosters) {
        var i :| 0 <= i < |rosters| && x in rosters[i];
        assert x in now[i];
      }
      if x in Everyone(now) {
        var i :| 0 <= i < |now| && x in now[i];
        assert x in rosters[i];
      }
    }
  }

  /** Sorts the roster of one section; the other sections' rosters and the course roster keep their order. */
  method SortSection(c: Course, k: nat, compare: Comparator, ghost roster: seq<Student>,
                     ghost rosters: seq<seq<Student>>)
    returns (ghost one: seq<Student>)
    requires k < |c.sections| == |rosters|
    requires IsList(c.roster, CourseLink, roster)
    requires SectionsApart(c.sections, rosters) && SectionLists(c.sections, rosters)
    requires Preorder(compare, Members(rosters[k]))
    modifies c.sections[k], Members(rosters[k])
    ensures IsList(c.roster, CourseLink, roster)
    ensures SortedFrom(rosters[k], one, compare)
    ensures SectionsApart(c.sections, rosters[k := one]) && SectionLists(c.sections, rosters[k := one])
    ensures Everyone(rosters[k := one]) == Everyone(rosters)
  {
    hide Preorder;
    var s := c.sections[k];
    s.roster, one := SortRoster(s.roster, SectionLink, compare, rosters[k]);
    SameStudents(rosters[k], one, compare);
    SameEveryone(rosters, k, one);
    ApartAfter(c.sections, rosters, k, one);
    hide SortedFrom, Members, Everyone;
    forall i | 0 <= i < |roster| ensures GetNext(roster[i], CourseLink) == After(roster, i) {
      assert roster[i] in rosters[k] || roster[i] !in rosters[k];
      assert old(GetNext(roster[i], CourseLink)) == After(roster, i);
    }
    forall i, j | 0 <= i < |rosters| && i != k && 0 <= j < |rosters[i]|
      ensures GetNext(rosters[i][j], SectionLink) == After(rosters[i], j)
    {
      assert rosters[i][j] in rosters[i] && rosters[i][j] !in rosters[k];
      assert old(GetNext(rosters[i][j], SectionLink)) == After(rosters[i], j);
    }
  }

  /** Sorts the roster of every section in turn. */
  method SortSections(c: Course, compare: Comparator, ghost roster: seq<Student>, ghost rosters: seq<seq<Student>>)
    returns (ghost sorteds: seq<seq<Student>>)
    requires |rosters| == |c.sections|
    requires IsList(c.roster, CourseLink, roster)
    requires SectionsApart(c.sections, rosters) && SectionLists(c.sections, rosters)
    requires Preorder(compare, Everyone(rosters))
    modifies c.sections, Everyone(rosters)
    ensures |sorteds| == |rosters|
    ensures IsList(c.roster, CourseLink, roster)
    ensures SectionsApart(c.sections, sorteds) && SectionLists(c.sections, sorteds)
    ensures forall k | 0 <= k < |sorteds| :: SortedFrom(rosters[k], sorteds[k], compare)
  {
    sorteds := rosters;
    hide *;
    for k := 0 to |c.sections|
      invariant |sorteds| == |rosters| && Everyone(sorteds) == Everyone(rosters)
      invariant IsList(c.roster, CourseLink, roster)
      invariant SectionsApart(c.sections, sorteds) && SectionLists(c.sections, sorteds)
      invariant forall i | 0 <= i < k :: SortedFrom(rosters[i], sorteds[i], compare)
      invariant forall i | k <= i < |rosters| :: sorteds[i] == rosters[i]
    {
      MembersOfEveryone(rosters, k);
      PreorderOnFewer(compare, Everyone(rosters), Members(rosters[k]));
      ghost var one := SortSection(c, k, compare, roster, sorteds);
      sorteds := sorteds[k := one];
    }
  }

  lemma MembersOfEveryone(rosters: seq<seq<Student>>, k: nat)
    requires k < |rosters|
    ensures Members(rosters[k]) <= Everyone(rosters)
  {
  }

  /** Sorts the course roster through cnext and then each section roster through next. The students are
      shared, and no list loses one or its place in another list. */
  method SortRosters(c: Course, compare: Comparator, ghost roster: seq<Student>, ghost rosters: seq<seq<Student>>)
    returns (ghost sorted: seq<Student>, ghost sorteds: seq<seq<Student>>)
    requires |rosters| == |c.sections|
    requires IsList(c.roster, CourseLink, roster)
    requires SectionsApart(c.sections, rosters) && SectionLists(c.sections, rosters)
    requires Preorder(compare, Members(roster) + Everyone(rosters))
    modifies c, c.sections, Members(roster), Everyone(rosters)
    ensures |sorteds| == |rosters|
    ensures IsList(c.roster, CourseLink, sorted) && SortedFrom(roster, sorted, compare)
    ensures SectionsApart(c.sections, sorteds) && SectionLists(c.sections, sorteds)
    ensures forall k | 0 <= k < |sorteds| :: SortedFrom(rosters[k], sorteds[k], compare)
  {
    hide Preorder, SortedFrom, SectionsApart;
    PreorderOnFewer(compare, Members(roster) + Everyone(rosters), Members(roster));
    PreorderOnFewer(compare, Members(roster) + Everyone(rosters), Everyone(rosters));
    c.roster, sorted := SortRoster(c.roster, CourseLink, compare, roster);
    forall i, j | 0 <= i < |rosters| && 0 <= j < |rosters[i]|
      ensures GetNext(rosters[i][j], SectionLink) == After(rosters[i], j)
    {
      assert rosters[i][j] in roster || rosters[i][j] !in roster;
      assert old(GetNext(rosters[i][j], SectionLink)) == After(rosters[i], j);
    }
    assert SectionLists(c.sections, rosters);
    hide *;
    sorteds := SortSections(c, compare, sorted, rosters);
  }

  // ---------------------------------------------------------------------------------------------
  // Duplicate entries
  // ---------------------------------------------------------------------------------------------

  /** The duplicates a scan of neighbours sees. */
  function NeighbourDuplicates(chain: seq<Student>): nat {
    if |chain| < 2 then 0
    else (if CompareName(chain[0], chain[1]) == 0 then 1 else 0) + NeighbourDuplicates(chain[1..])
  }

  method CheckForDups(head: Student?, ghost chain: seq<Student>) returns (warnings: nat)
    requires IsList(head, CourseLink, chain)
    ensures warnings == NeighbourDuplicates(chain)
  {
    warnings := 0;
    var sp := head;
    ghost var i := 0;
    while sp != null && sp.cnext != null
      invariant 0 <= i <= |chain| && sp == After(chain, i - 1)
      invariant warnings + NeighbourDuplicates(chain[i..]) == NeighbourDuplicates(chain)
      decreases |chain| - i
    {
      assert GetNext(chain[i], CourseLink) == After(chain, i);
      if CompareName(sp, sp.cnext) == 0 {
        warnings := warnings + 1;
      }
      sp := sp.cnext;
      i := i + 1;
    }
    assert sp != null ==> GetNext(chain[i], CourseLink) == After(chain, i);
  }

  function FullName(s: Student): (string, string) {
    (s.surname, s.name)
  }

  function FullNames(chain: seq<Student>): set<(string, string)> {
    set x | x in chain :: FullName(x)
  }

  lemma SameNameComparesEqual(x: Student, y: Student)
    ensures CompareName(x, y) == 0 <==> FullName(x) == FullName(y)
  {
    StrCompareZero(x.surname, y.surname);
    StrCompareZero(x.name, y.name);
  }

  lemma CompareNameFlips(x: Student, y: Student)
    ensures CompareName(x, y) <= 0 <==> CompareName(y, x) >= 0
  {
    StrCompareFlips(x.surname, y.surname);
    StrCompareFlips(y.surname, x.surname);
    StrCompareFlips(x.name, y.name);
  }

  /** In a sorted roster equal names are neighbours. */
  lemma DuplicateIsNeighbour(chain: seq<Student>, j: int)
    requires Sorted(chain, CompareName) && 0 < j < |chain| && CompareName(chain[0], chain[j]) == 0
    ensures CompareName(chain[0], chain[1]) == 0
  {
    if j > 1 {
      CompareNameFlips(chain[0], chain[j]);
      CompareNameFlips(chain[j], chain[0]);
      CompareNameTransitive(chain[1], chain[j], chain[0]);
      CompareNameFlips(chain[1], chain[0]);
    }
  }

  lemma FirstNameRepeats(chain: seq<Student>)
    requires Sorted(chain, CompareName) && |chain| >= 2
    ensures FullName(chain[0]) in FullNames(chain[1..]) <==> CompareName(chain[0], chain[1]) == 0
  {
    hide CompareName;
    var rest := chain[1..];
    SameNameComparesEqual(chain[0], chain[1]);
    assert rest[0] in rest;
    if FullName(chain[0]) in FullNames(rest) {
      var x :| x in rest && FullName(x) == FullName(chain[0]);
      var j :| 0 <= j < |rest| && rest[j] == x;
      SameNameComparesEqual(chain[0], x);
      DuplicateIsNeighbour(chain, j + 1);
    }
  }

  /** On a roster sorted by name, the neighbour scan misses no duplicate: it warns once for every student
      beyond the first of each name. */
  lemma {:induction false} SortedDuplicates(chain: seq<Student>)
    requires Sorted(chain, CompareName)
    ensures NeighbourDuplicates(chain) + |FullNames(chain)| == |chain|
  {
    hide CompareName;
    if |chain| == 1 {
      assert FullNames(chain) == {FullName(chain[0])};
    } else if |chain| >= 2 {
      var rest := chain[1..];
      SortedDuplicates(rest);
      FirstNameRepeats(chain);
      hide Sorted;
      assert chain == [chain[0]] + rest;
      assert FullNames(chain) == {FullName(chain[0])} + FullNames(rest);
    }
  }

  /** Nobody stands in front of somebody whose name precedes. */
  ghost predicate InNameOrder(s: seq<Student>) {
    forall i, j | 0 <= i < j < |s| :: !NamePrecedes(s[j], s[i])
  }

  lemma SortedByName(was: seq<Student>, s: seq<Student>)
    requires SortedFrom(was, s, CompareName)
    ensures InNameOrder(s) && multiset(s) == multiset(was)
  {
    forall i, j | 0 <= i < j < |s| ensures !NamePrecedes(s[j], s[i]) {
      SortedIsInOrder(s, i, j);
    }
  }

  lemma SameFullNames(roster: seq<Student>, sorted: seq<Student>)
    requires multiset(sorted) == multiset(roster)
    ensures |sorted| == |roster| && FullNames(sorted) == FullNames(roster)
  {
    assert |sorted| == |multiset(sorted)| == |multiset(roster)| == |roster|;
    forall x ensures x in roster <==> x in sorted { assert x in multiset(roster) <==> x in multiset(sorted); }
  }

  /** What the program does before writing its reports: sort everything by name, then look for duplicates. */
  method SortByNameAndCheck(c: Course, ghost roster: seq<Student>, ghost rosters: seq<seq<Student>>)
    returns (warnings: nat, ghost sorted: seq<Student>, ghost sorteds: seq<seq<Student>>)
    requires |rosters| == |c.sections|
    requires IsList(c.roster, CourseLink, roster)
    requires SectionsApart(c.sections, rosters) && SectionLists(c.sections, rosters)
    modifies c, c.sections, Members(roster) + Everyone(rosters)
    ensures IsList(c.roster, CourseLink, sorted) && multiset(sorted) == multiset(roster) && InNameOrder(sorted)
    ensures |sorteds| == |rosters| == |c.sections| && SectionLists(c.sections, sorteds)
    ensures forall k | 0 <= k < |sorteds| :: multiset(sorteds[k]) == multiset(rosters[k]) && InNameOrder(sorteds[k])
    ensures warnings == |roster| - |FullNames(roster)|
  {
    ComparatorsArePreorders(Members(roster) + Everyone(rosters));
    hide Preorder, SortedFrom, SectionsApart, InNameOrder, FullNames;
    sorted, sorteds := SortRosters(c, CompareName, roster, rosters);
    SortedByName(roster, sorted);
    forall k | 0 <= k < |sorteds|
      ensures multiset(sorteds[k]) == multiset(rosters[k]) && InNameOrder(sorteds[k])
    {
      SortedByName(rosters[k], sorteds[k]);
    }
    warnings := CheckForDups(c.roster, sorted);
    SortedIsSorted(roster, sorted);
    SortedDuplicates(sorted);
    SameFullNames(roster, sorted);
  }

  lemma SortedIsSorted(was: seq<Student>, s: seq<Student>)
    requires SortedFrom(was, s, CompareName)
    ensures Sorted(s, CompareName)
  {
  }
}
