/** Building the statistics records of a course, and linking students and scores to them
    (grades/src/stats.c 18-124). */
module CourseLinks {

  import opened CourseStats
  import Moments
  import opened RosterSort
  import opened RosterTable
  import opened Sequences

  // ---------------------------------------------------------------------------------------------
  // The records
  // ---------------------------------------------------------------------------------------------

  ghost function Classes(s: seq<AsgtStats>): set<Group> {
    set a | 0 <= a < |s| :: s[a].cstats
  }

  ghost function Parts(s: seq<AsgtStats>): set<Group> {
    set a, k | 0 <= a < |s| && 0 <= k < |s[a].sstats| :: s[a].sstats[k]
  }

  /** There is one record for each assignment, and one for each assignment and section. */
  ghost predicate Separated(s: seq<AsgtStats>) {
    && Classes(s) !! Parts(s)
    && (forall a, b | 0 <= a < b < |s| :: s[a].cstats != s[b].cstats)
    && (forall a | 0 <= a < |s| :: Distinct(s[a].sstats))
    && (forall a, b, g | 0 <= a < b < |s| && g in s[a].sstats :: g !in s[b].sstats)
  }

  ghost predicate Blank(g: Group)
    reads g
  {
    g.valid == g.tallied == 0 && g.sum == g.sumsq == 0.0 && g.freqs == null && g.chain == []
  }

  method BuildSections(sections: nat) returns (sstats: seq<Group>)
    ensures |sstats| == sections && Distinct(sstats)
    ensures forall g | g in sstats :: fresh(g) && Blank(g)
  {
    sstats := [];
    while |sstats| < sections
      invariant |sstats| <= sections && Distinct(sstats)
      invariant forall g | g in sstats :: fresh(g) && Blank(g)
    {
      var ssp := new Group();
      sstats := sstats + [ssp];
    }
  }

  /** A blank record for every assignment, and for every section of every assignment. */
  method BuildStats(assignments: nat, sections: nat) returns (s: seq<AsgtStats>)
    ensures |s| == assignments && Separated(s) && forall a | 0 <= a < |s| :: |s[a].sstats| == sections
    ensures fresh(Classes(s)) && fresh(Parts(s))
    ensures forall g | g in Classes(s) + Parts(s) :: Blank(g)
  {
    s := [];
    while |s| < assignments
      invariant |s| <= assignments && Separated(s) && forall a | 0 <= a < |s| :: |s[a].sstats| == sections
      invariant fresh(Classes(s)) && fresh(Parts(s))
      invariant forall g | g in Classes(s) + Parts(s) :: Blank(g)
    {
      ghost var was := Classes(s) + Parts(s);
      var csp := new Group();
      assert csp !in was;
      var sstats := BuildSections(sections);
      SeparatedNext(s, AsgtStats(csp, sstats));
      s := s + [AsgtStats(csp, sstats)];
    }
  }

  lemma GroupsNext(s: seq<AsgtStats>, r: AsgtStats)
    ensures Classes(s + [r]) == Classes(s) + {r.cstats}
    ensures Parts(s + [r]) == Parts(s) + set g | g in r.sstats
  {
    var t := s + [r];
    assert t[|s|] == r && forall a | 0 <= a < |s| :: t[a] == s[a];
    forall g ensures g in Classes(t) <==> g in Classes(s) + {r.cstats} {
      if g in Classes(s) {
        var a :| 0 <= a < |s| && s[a].cstats == g;
        assert t[a].cstats == g;
      }
    }
    forall g ensures g in Parts(t) <==> g in Parts(s) || g in r.sstats {
      if g in Parts(s) {
        var a, k :| 0 <= a < |s| && 0 <= k < |s[a].sstats| && s[a].sstats[k] == g;
        assert t[a].sstats[k] == g;
      }
      if g in r.sstats {
        var k :| 0 <= k < |r.sstats| && r.sstats[k] == g;
        assert t[|s|].sstats[k] == g;
      }
    }
  }

  lemma SeparatedNext(s: seq<AsgtStats>, r: AsgtStats)
    requires Separated(s) && Distinct(r.sstats) && r.cstats !in r.sstats
    requires r.cstats !in Classes(s) + Parts(s)
    requires forall g | g in r.sstats :: g !in Classes(s) + Parts(s)
    ensures Separated(s + [r])
    ensures Classes(s + [r]) == Classes(s) + {r.cstats}
    ensures Parts(s + [r]) == Parts(s) + set g | g in r.sstats
  {
    GroupsNext(s, r);
    forall a, g | 0 <= a < |s| && g in s[a].sstats ensures g in Parts(s) {
    }
  }

  lemma {:induction false} AllGroupsSplit(s: seq<AsgtStats>)
    ensures AllGroups(s) == Classes(s) + Parts(s)
  {
    if s != [] {
      AllGroupsSplit(s[..|s| - 1]);
      GroupsNext(s[..|s| - 1], s[|s| - 1]);
      hide Classes, Parts;
      assert s == s[..|s| - 1] + [s[|s| - 1]];
    }
  }

  // ---------------------------------------------------------------------------------------------
  // The course roster
  // ---------------------------------------------------------------------------------------------

  /** Where cnext of student i points when the first p students of `all` have been linked anew, and the others are
      still linked as they were by an earlier pass. The last student has then been made to point to the first. */
  ghost function Target(all: seq<Student>, p: nat, i: nat): Student?
    requires p <= |all| && i < |all|
  {
    if i + 1 < p then all[i + 1]
    else if i + 1 == p then null
    else if i + 1 < |all| then all[i + 1]
    else if p == 0 then null else all[0]
  }

  function CourseNext(x: Student): Student?
    reads x`cnext
  {
    x.cnext
  }

  /** The links after p students of a pass over `all`; before the first pass nothing is known of the others. */
  ghost predicate Midway(all: seq<Student>, later: bool, p: nat)
    requires p <= |all|
    reads (set x | x in all)`cnext
  {
    forall i {:trigger CourseNext(all[i])} | 0 <= i < |all| && (later || i < p) ::
      CourseNext(all[i]) == Target(all, p, i)
  }

  /** The student linked last. */
  ghost function LastLinked(all: seq<Student>, later: bool, p: nat): Student?
    requires p <= |all|
  {
    if p > 0 then all[p - 1] else if later && all != [] then all[|all| - 1] else null
  }

  ghost function FirstLinked(all: seq<Student>, later: bool, p: nat): Student?
    requires p <= |all|
  {
    if all != [] && (later || p > 0) then all[0] else null
  }

  /** The state of linking at position p of a pass. */
  ghost predicate Reached(c: Course, rp: Student?, all: seq<Student>, later: bool, p: nat)
    reads c`roster, (set x | x in all)`cnext
  {
    p <= |all| && Midway(all, later, p) && rp == LastLinked(all, later, p) && c.roster == FirstLinked(all, later, p)
  }

  /** Links one student, the one at position p, behind the one linked last. */
  method LinkStudent(c: Course, rp: Student?, stp: Student, ghost all: seq<Student>, ghost later: bool, ghost p: nat)
    requires Distinct(all) && p < |all| && stp == all[p] && Reached(c, rp, all, later, p)
    modifies c`roster, (set x | x in all)`cnext
    ensures Reached(c, stp, all, later, p + 1)
  {
    if rp == null {
      c.roster := stp;
      stp.cnext := null;
    } else {
      rp.cnext := stp;
      stp.cnext := null;
    }
    forall i | 0 <= i < |all| && (later || i < p + 1) ensures CourseNext(all[i]) == Target(all, p + 1, i) {
      if later || i < p {
        assert old(CourseNext(all[i])) == Target(all, p, i);
      }
    }
  }

  /** A whole pass leaves the list of all students, and the next one starts from it. */
  lemma PassDone(c: Course, rp: Student?, all: seq<Student>, later: bool)
    requires Reached(c, rp, all, later, |all|)
    ensures IsList(c.roster, CourseLink, all) && Reached(c, rp, all, true, 0)
  {
    forall i | 0 <= i < |all| ensures GetNext(all[i], CourseLink) == RosterSort.After(all, i) {
      assert CourseNext(all[i]) == Target(all, |all|, i);
    }
    forall i | 0 <= i < |all| ensures CourseNext(all[i]) == Target(all, 0, i) {
      assert CourseNext(all[i]) == Target(all, |all|, i);
    }
  }

  // ---------------------------------------------------------------------------------------------
  // Scores
  // ---------------------------------------------------------------------------------------------

  /** A raw score in the database: for the asgt-th assignment. */
  class RawScore {
    const asgt: nat
    const grade: real
    const flag: Gflag
    const subst: Gsubst
    var cstats: Group?
    var sstats: Group?

    constructor (asgt: nat, grade: real, flag: Gflag, subst: Gsubst)
      ensures this.asgt == asgt && this.grade == grade && this.flag == flag && this.subst == subst
    {
      this.asgt, this.grade, this.flag, this.subst := asgt, grade, flag, subst;
      cstats, sstats := null, null;
    }
  }

  /** Every score belongs to one student. The scores of a student do not change, so they are a sequence here. */
  ghost predicate Belong(scores: map<Student, seq<RawScore>>, owner: map<RawScore, Student>) {
    && (forall x, y | x in scores && y in scores[x] :: y in owner && owner[y] == x)
    && (forall y | y in owner :: owner[y] in scores && y in scores[owner[y]])
  }

  /** The score, if it is of a student of section k, is linked to the records of its assignment. */
  ghost predicate LinkedRight(y: RawScore, s: seq<AsgtStats>, k: nat)
    reads y`cstats, y`sstats
  {
    y.asgt < |s| && k < |s[y.asgt].sstats| ==> y.cstats == s[y.asgt].cstats && y.sstats == s[y.asgt].sstats[k]
  }

  /** All scores for the assignments before a are linked, and those for a of the first n students. */
  ghost predicate Assigned(s: seq<AsgtStats>, rosters: seq<seq<Student>>, owner: map<RawScore, Student>,
                           a: nat, n: nat)
    requires n <= |Flatten(rosters)|
    reads owner.Keys`cstats, owner.Keys`sstats
  {
    forall y, k | y in owner && 0 <= k < |rosters| && owner[y] in rosters[k]
                  && (y.asgt < a || (y.asgt == a && owner[y] in Flatten(rosters)[..n])) :: LinkedRight(y, s, k)
  }

  method LinkScores(rawscores: seq<RawScore>, ap: nat, csp: Group, ssp: Group)
    modifies (set y | y in rawscores)`cstats, (set y | y in rawscores)`sstats
    ensures forall y | y in rawscores && y.asgt == ap :: y.cstats == csp && y.sstats == ssp
    ensures forall y | y in rawscores && y.asgt != ap :: unchanged(y)
  {
    for i := 0 to |rawscores|
      invariant forall j | 0 <= j < i && rawscores[j].asgt == ap ::
          rawscores[j].cstats == csp && rawscores[j].sstats == ssp
      invariant forall y | y in rawscores && y.asgt != ap :: unchanged(y)
    {
      var scp := rawscores[i];
      if scp.asgt == ap {
        scp.cstats := csp;
        scp.sstats := ssp;
      }
    }
  }

  /** Links the scores of one student of section k for assignment a. */
  method AssignStudent(stp: Student, scores: map<Student, seq<RawScore>>, s: seq<AsgtStats>, a: nat, k: nat,
                       ghost rosters: seq<seq<Student>>, ghost owner: map<RawScore, Student>, ghost n: nat)
    requires a < |s| && k < |s[a].sstats| && k < |rosters| && stp in rosters[k] && stp in scores
    requires Belong(scores, owner)
    requires forall j | 0 <= j < |rosters| && j != k :: stp !in rosters[j]
    requires n < |Flatten(rosters)| && stp == Flatten(rosters)[n] && Assigned(s, rosters, owner, a, n)
    modifies owner.Keys`cstats, owner.Keys`sstats
    ensures Assigned(s, rosters, owner, a, n + 1)
  {
    var all := Flatten(rosters);
    assert all[..n + 1] == all[..n] + [stp];
    hide Flatten;
    LinkScores(scores[stp], a, s[a].cstats, s[a].sstats[k]);
    forall y, j | y in owner && 0 <= j < |rosters| && owner[y] in rosters[j]
                  && (y.asgt < a || (y.asgt == a && owner[y] in all[..n + 1])) ensures LinkedRight(y, s, j)
    {
      if owner[y] == stp && y.asgt == a {
        assert j == k && y in scores[stp];
      } else {
        assert old(LinkedRight(y, s, j));
      }
    }
  }

  // ---------------------------------------------------------------------------------------------
  // Linking
  // ---------------------------------------------------------------------------------------------

  function SectionNext(x: Student): Student?
    reads x`next
  {
    x.next
  }

  /** The section rosters, as far as linking reads them. */
  ghost predicate Chains(c: Course, rosters: seq<seq<Student>>)
    requires |rosters| == |c.sections|
    reads c.sections`roster, Everyone(rosters)`next
  {
    && (forall k | 0 <= k < |rosters| :: c.sections[k].roster == RosterSort.After(rosters[k], -1))
    && (forall k, j {:trigger SectionNext(rosters[k][j])} | 0 <= k < |rosters| && 0 <= j < |rosters[k]| ::
          SectionNext(rosters[k][j]) == RosterSort.After(rosters[k], j))
  }

  lemma ChainsAreLists(c: Course, rosters: seq<seq<Student>>)
    requires |rosters| == |c.sections|
    ensures Chains(c, rosters) <==> SectionLists(c.sections, rosters)
  {
    forall k, j | 0 <= k < |rosters| && 0 <= j < |rosters[k]|
      ensures GetNext(rosters[k][j], SectionLink) == SectionNext(rosters[k][j])
    {
    }
  }

  /** Everything that linking needs and keeps: the section rosters, whose students are all there are, and the
      scores of each. */
  ghost predicate Enrolled(c: Course, rosters: seq<seq<Student>>, scores: map<Student, seq<RawScore>>,
                           owner: map<RawScore, Student>)
  {
    && SectionsApart(c.sections, rosters) && Distinct(Flatten(rosters)) && Belong(scores, owner)
    && (forall x | x in Flatten(rosters) :: x in scores)
  }

  lemma SectionPosition(rosters: seq<seq<Student>>, k: nat, j: nat)
    requires k < |rosters| && j < |rosters[k]|
    ensures Start(rosters, k) + j < |Flatten(rosters)|
    ensures Flatten(rosters)[Start(rosters, k) + j] == rosters[k][j]
    ensures Flatten(rosters)[..Start(rosters, k) + j + 1] == Flatten(rosters)[..Start(rosters, k) + j] + [rosters[k][j]]
  {
    FlattenAt(rosters, k, j);
  }

  lemma StartNext(rosters: seq<seq<Student>>, k: nat)
    requires k < |rosters|
    ensures Start(rosters, k + 1) == Start(rosters, k) + |rosters[k]| <= |Flatten(rosters)|
  {
    FlattenNext(rosters, k);
    FlattenPrefix(rosters, k + 1);
  }

  /** Links the j-th student of section k, and its scores for assignment a. */
  method VisitStudent(c: Course, rp: Student?, stp: Student, k: nat, ghost j: nat, a: nat, s: seq<AsgtStats>,
                      scores: map<Student, seq<RawScore>>, ghost rosters: seq<seq<Student>>,
                      ghost owner: map<RawScore, Student>, ghost later: bool)
    requires Enrolled(c, rosters, scores, owner) && k < |rosters| && a < |s| && k < |s[a].sstats|
    requires j < |rosters[k]| && stp == rosters[k][j] && Start(rosters, k) + j <= |Flatten(rosters)|
    requires Reached(c, rp, Flatten(rosters), later, Start(rosters, k) + j)
    requires Assigned(s, rosters, owner, a, Start(rosters, k) + j)
    modifies c`roster, (set x | x in Flatten(rosters))`cnext, owner.Keys`cstats, owner.Keys`sstats
    ensures Start(rosters, k) + j + 1 <= |Flatten(rosters)|
    ensures Reached(c, stp, Flatten(rosters), later, Start(rosters, k) + j + 1)
    ensures Assigned(s, rosters, owner, a, Start(rosters, k) + j + 1)
  {
    ghost var all, p := Flatten(rosters), Start(rosters, k) + j;
    SectionPosition(rosters, k, j);
    hide Reached, Assigned, Start, Flatten;
    LinkStudent(c, rp, stp, all, later, p);
    AssignStudent(stp, scores, s, a, k, rosters, owner, p);
  }

  lemma ChainNext(c: Course, rosters: seq<seq<Student>>, k: nat, j: nat)
    requires |rosters| == |c.sections| && Chains(c, rosters) && k < |rosters| && j < |rosters[k]|
    ensures rosters[k][j].next == RosterSort.After(rosters[k], j)
  {
    assert SectionNext(rosters[k][j]) == RosterSort.After(rosters[k], j);
  }

  /** Links the students of section k, and their scores for assignment a. */
  method LinkSection(c: Course, rp: Student?, k: nat, a: nat, s: seq<AsgtStats>, scores: map<Student, seq<RawScore>>,
                     ghost rosters: seq<seq<Student>>, ghost owner: map<RawScore, Student>, ghost later: bool)
    returns (last: Student?)
    requires Enrolled(c, rosters, scores, owner) && k < |rosters| && a < |s| && k < |s[a].sstats|
    requires Chains(c, rosters) && Start(rosters, k) <= |Flatten(rosters)|
    requires Reached(c, rp, Flatten(rosters), later, Start(rosters, k))
    requires Assigned(s, rosters, owner, a, Start(rosters, k))
    modifies c`roster, (set x | x in Flatten(rosters))`cnext, owner.Keys`cstats, owner.Keys`sstats
    ensures Start(rosters, k + 1) <= |Flatten(rosters)|
    ensures Reached(c, last, Flatten(rosters), later, Start(rosters, k + 1))
    ensures Assigned(s, rosters, owner, a, Start(rosters, k + 1))
  {
    StartNext(rosters, k);
    last := rp;
    var stp := c.sections[k].roster;
    ghost var j := 0;
    assert |rosters| == |c.sections| && stp == RosterSort.After(rosters[k], -1);
    hide Enrolled, Reached, Assigned, Start, Flatten;
    while stp != null
      invariant j <= |rosters[k]| && stp == RosterSort.After(rosters[k], j - 1)
      invariant Start(rosters, k) + j <= |Flatten(rosters)|
      invariant Reached(c, last, Flatten(rosters), later, Start(rosters, k) + j)
      invariant Assigned(s, rosters, owner, a, Start(rosters, k) + j)
      decreases |rosters[k]| - j
    {
      ChainNext(c, rosters, k, j);
      VisitStudent(c, last, stp, k, j, a, s, scores, rosters, owner, later);
      last := stp;
      stp := stp.next;
      j := j + 1;
    }
  }

  /** Links all students, section by section, and their scores for assignment a. */
  method LinkAssignment(c: Course, rp: Student?, a: nat, s: seq<AsgtStats>, scores: map<Student, seq<RawScore>>,
                        ghost rosters: seq<seq<Student>>, ghost owner: map<RawScore, Student>)
    returns (last: Student?)
    requires Enrolled(c, rosters, scores, owner) && a < |s| && |s[a].sstats| == |c.sections|
    requires Chains(c, rosters)
    requires Reached(c, rp, Flatten(rosters), a > 0, 0)
    requires Assigned(s, rosters, owner, a, 0)
    modifies c`roster, (set x | x in Flatten(rosters))`cnext, owner.Keys`cstats, owner.Keys`sstats
    ensures IsList(c.roster, CourseLink, Flatten(rosters)) && Reached(c, last, Flatten(rosters), true, 0)
    ensures Assigned(s, rosters, owner, a + 1, 0)
  {
    ghost var all := Flatten(rosters);
    last := rp;
    assert Start(rosters, 0) == 0;
    assert |rosters| == |c.sections|;
    hide Enrolled, Reached, Assigned, Start, Flatten;
    for k := 0 to |c.sections|
      invariant Start(rosters, k) <= |Flatten(rosters)|
      invariant Reached(c, last, all, a > 0, Start(rosters, k))
      invariant Assigned(s, rosters, owner, a, Start(rosters, k))
    {
      last := LinkSection(c, last, k, a, s, scores, rosters, owner, a > 0);
    }
    StartIsAll(rosters);
    PassDone(c, last, all, a > 0);
    AssignedNext(s, rosters, owner, a);
  }

  lemma StartIsAll(rosters: seq<seq<Student>>)
    ensures Start(rosters, |rosters|) == |Flatten(rosters)|
  {
    assert rosters[..|rosters|] == rosters;
  }

  lemma AssignedNext(s: seq<AsgtStats>, rosters: seq<seq<Student>>, owner: map<RawScore, Student>, a: nat)
    requires Assigned(s, rosters, owner, a, |Flatten(rosters)|)
    ensures Assigned(s, rosters, owner, a + 1, 0)
  {
    var all := Flatten(rosters);
    assert all[..|all|] == all && all[..0] == [];
    forall y, k | y in owner && 0 <= k < |rosters| && owner[y] in rosters[k] && y.asgt < a + 1
      ensures LinkedRight(y, s, k)
    {
      FlattenHolds(rosters, owner[y]);
    }
  }

  /** No student is listed twice. */
  lemma EveryoneOnce(c: Course, rosters: seq<seq<Student>>)
    requires SectionsApart(c.sections, rosters) && SectionLists(c.sections, rosters)
    ensures Distinct(Flatten(rosters))
  {
    forall k | 0 <= k < |rosters| ensures Distinct(rosters[k]) {
      forall i, j | 0 <= i < j < |rosters[k]| ensures rosters[k][i] != rosters[k][j] {
        ListIsDistinct(c.sections[k].roster, SectionLink, rosters[k], i, j);
      }
    }
    FlattenDistinct(rosters);
  }

  /** Every score of a student of section k is linked to the class and section records of its assignment. */
  ghost predicate AllLinked(s: seq<AsgtStats>, rosters: seq<seq<Student>>, owner: map<RawScore, Student>)
    requires forall a | 0 <= a < |s| :: |s[a].sstats| == |rosters|
    reads owner.Keys`cstats, owner.Keys`sstats
  {
    forall y, k | y in owner && 0 <= k < |rosters| && owner[y] in rosters[k] && y.asgt < |s| ::
      y.cstats == s[y.asgt].cstats && y.sstats == s[y.asgt].sstats[k]
  }

  lemma AssignedIsLinked(s: seq<AsgtStats>, rosters: seq<seq<Student>>, owner: map<RawScore, Student>)
    requires forall a | 0 <= a < |s| :: |s[a].sstats| == |rosters|
    requires Assigned(s, rosters, owner, |s|, 0)
    ensures AllLinked(s, rosters, owner)
  {
    forall y, k | y in owner && 0 <= k < |rosters| && owner[y] in rosters[k] && y.asgt < |s|
      ensures y.cstats == s[y.asgt].cstats && y.sstats == s[y.asgt].sstats[k]
    {
      assert LinkedRight(y, s, k);
    }
  }

  lemma NothingAssigned(s: seq<AsgtStats>, rosters: seq<seq<Student>>, owner: map<RawScore, Student>)
    ensures Assigned(s, rosters, owner, 0, 0)
  {
    assert Flatten(rosters)[..0] == [];
  }

  /** Links every student into the course roster, once for each assignment, and every score to the records of its
      assignment: of the class, and of the section of its student. With at least one assignment the course roster
      is, in the end, the section rosters one after the other; without any it is empty. */
  method DoLinks(c: Course, s: seq<AsgtStats>, scores: map<Student, seq<RawScore>>,
                 ghost rosters: seq<seq<Student>>, ghost owner: map<RawScore, Student>)
    requires SectionsApart(c.sections, rosters) && SectionLists(c.sections, rosters) && Belong(scores, owner)
    requires forall x | x in Flatten(rosters) :: x in scores
    requires forall a | 0 <= a < |s| :: |s[a].sstats| == |c.sections|
    modifies c`roster, (set x | x in Flatten(rosters))`cnext, owner.Keys`cstats, owner.Keys`sstats
    ensures SectionLists(c.sections, rosters)
    ensures IsList(c.roster, CourseLink, if s == [] then [] else Flatten(rosters))
    ensures AllLinked(s, rosters, owner)
  {
    c.roster := null;
    var rp: Student? := null;
    EveryoneOnce(c, rosters);
    ChainsAreLists(c, rosters);
    NothingAssigned(s, rosters, owner);
    assert |rosters| == |c.sections|;
    assert Enrolled(c, rosters, scores, owner);
    ghost var all := Flatten(rosters);
    assert forall a | 0 <= a < |s| :: |s[a].sstats| == |rosters|;
    for a := 0 to |s|
      invariant Reached(c, rp, all, a > 0, 0) && Chains(c, rosters)
      invariant if a == 0 then c.roster == null else IsList(c.roster, CourseLink, all)
      invariant Assigned(s, rosters, owner, a, 0)
    {
      hide Enrolled, Reached, Assigned, Chains, IsList, Flatten;
      rp := LinkAssignment(c, rp, a, s, scores, rosters, owner);
    }
    ChainsAreLists(c, rosters);
    AssignedIsLinked(s, rosters, owner);
    if s == [] {
      EmptyList();
    }
  }

  /** The course roster, as far as its links go. */
  ghost predicate CourseChain(head: Student?, all: seq<Student>)
    reads (set x | x in all)`cnext
  {
    && head == RosterSort.After(all, -1)
    && (forall i {:trigger CourseNext(all[i])} | 0 <= i < |all| :: CourseNext(all[i]) == RosterSort.After(all, i))
  }

  lemma CourseChainIsList(head: Student?, all: seq<Student>)
    ensures CourseChain(head, all) <==> IsList(head, CourseLink, all)
  {
    forall i | 0 <= i < |all| ensures GetNext(all[i], CourseLink) == CourseNext(all[i]) {
    }
  }

  lemma EmptyList()
    ensures IsList(null, CourseLink, [])
  {
  }

  // ---------------------------------------------------------------------------------------------
  // What linking gives the statistics
  // ---------------------------------------------------------------------------------------------

  /** A linked score, as the statistics see it: in the class record of its assignment and in one of its section
      records. */
  ghost predicate InPlace(z: Score, s: seq<AsgtStats>) {
    z.asgt < |s| && z.cstats == s[z.asgt].cstats && z.sstats in s[z.asgt].sstats
  }

  ghost predicate AllInPlace(zs: seq<Score>, s: seq<AsgtStats>) {
    forall z | z in zs :: InPlace(z, s)
  }

  /** The counted grades for assignment a, in roster order. */
  function GradesFor(zs: seq<Score>, a: nat): seq<real> {
    if zs == [] then []
    else
      var last := zs[|zs| - 1];
      GradesFor(zs[..|zs| - 1], a) + (if last.Counted() && last.asgt == a then [last.grade] else [])
  }

  /** The grades that count are those of scores that are valid, or are to be used raw; others leave no trace. */
  lemma GradesForNext(zs: seq<Score>, z: Score, a: nat)
    ensures GradesFor([], a) == []
    ensures GradesFor(zs + [z], a) ==
      GradesFor(zs, a) + (if z.asgt == a && (z.flag == Valid || z.subst == UseRaw) then [z.grade] else [])
  {
    assert (zs + [z])[..|zs|] == zs;
  }

  lemma PartIsPart(s: seq<AsgtStats>, a: nat, g: Group)
    requires a < |s| && g in s[a].sstats
    ensures g in Parts(s)
  {
  }

  lemma LinkedIntoPlace(zs: seq<Score>, s: seq<AsgtStats>)
    requires AllInPlace(zs, s)
    ensures Linked(zs, Classes(s), Parts(s))
  {
    forall z | z in zs ensures z.cstats in Classes(s) && z.sstats in Parts(s) {
      PartIsPart(s, z.asgt, z.sstats);
    }
  }

  /** A score is in the class record of assignment a, or in one of its section records, exactly when it is for
      assignment a. */
  lemma PlaceIsAssignment(z: Score, s: seq<AsgtStats>, a: nat)
    requires InPlace(z, s) && Separated(s) && a < |s|
    ensures z.cstats == s[a].cstats <==> z.asgt == a
    ensures z.sstats in s[a].sstats <==> z.asgt == a
    ensures z.sstats != s[a].cstats && z.cstats !in s[a].sstats
  {
    PartIsPart(s, z.asgt, z.sstats);
    assert s[a].cstats in Classes(s) && z.cstats in Classes(s);
    if z.cstats in s[a].sstats { PartIsPart(s, a, z.cstats); }
  }

  /** So the sections of a class hold exactly its scores, and the class record is given exactly the counted grades
      for its assignment. */
  lemma {:induction false} RecordsHoldAssignments(zs: seq<Score>, s: seq<AsgtStats>, a: nat)
    requires AllInPlace(zs, s) && Separated(s) && a < |s|
    ensures Sectioned(zs, s[a].cstats, s[a].sstats)
    ensures Grades(zs, s[a].cstats) == GradesFor(zs, a)
  {
    forall z | z in zs
      ensures z.sstats != s[a].cstats && z.cstats !in s[a].sstats
      ensures z.cstats == s[a].cstats <==> z.sstats in s[a].sstats
    {
      PlaceIsAssignment(z, s, a);
    }
    if zs != [] {
      var front, last := zs[..|zs| - 1], zs[|zs| - 1];
      assert zs == front + [last] && last in zs;
      PlaceIsAssignment(last, s, a);
      assert AllInPlace(front, s);
      RecordsHoldAssignments(front, s, a);
    }
  }

  /** The raw scores of one student as the statistics see them. */
  ghost predicate Viewed(zs: seq<Score>, rawscores: seq<RawScore>)
    reads rawscores
  {
    && |zs| == |rawscores|
    && (forall j | 0 <= j < |zs| ::
          && rawscores[j].cstats != null && rawscores[j].sstats != null
          && zs[j] == Score(rawscores[j].asgt, rawscores[j].grade, rawscores[j].flag, rawscores[j].subst,
                            rawscores[j].cstats, rawscores[j].sstats))
  }

  method ViewScores(rawscores: seq<RawScore>) returns (zs: seq<Score>)
    requires forall y | y in rawscores :: y.cstats != null && y.sstats != null
    ensures Viewed(zs, rawscores)
  {
    zs := [];
    for j := 0 to |rawscores|
      invariant Viewed(zs, rawscores[..j])
    {
      var y := rawscores[j];
      assert y in rawscores;
      zs := zs + [Score(y.asgt, y.grade, y.flag, y.subst, y.cstats, y.sstats)];
    }
    assert rawscores[..|rawscores|] == rawscores;
  }

  /** The scores of all students of the course roster, student by student. */
  method ViewRoster(c: Course, scores: map<Student, seq<RawScore>>, ghost all: seq<Student>)
    returns (roster: seq<seq<Score>>)
    requires IsList(c.roster, CourseLink, all)
    requires forall x | x in all :: x in scores && forall y | y in scores[x] :: y.cstats != null && y.sstats != null
    ensures |roster| == |all| && forall i | 0 <= i < |all| :: Viewed(roster[i], scores[all[i]])
  {
    roster := [];
    var stp := c.roster;
    while stp != null
      invariant |roster| <= |all| && stp == RosterSort.After(all, |roster| - 1)
      invariant forall i | 0 <= i < |roster| :: Viewed(roster[i], scores[all[i]])
      decreases |all| - |roster|
    {
      assert GetNext(all[|roster|], CourseLink) == RosterSort.After(all, |roster|);
      var zs := ViewScores(scores[stp]);
      roster := roster + [zs];
      stp := stp.cnext;
    }
  }

  /** After linking, every score in the roster is in its place. */
  lemma RosterInPlace(s: seq<AsgtStats>, rosters: seq<seq<Student>>, scores: map<Student, seq<RawScore>>,
                      owner: map<RawScore, Student>, roster: seq<seq<Score>>)
    requires Belong(scores, owner) && forall a | 0 <= a < |s| :: |s[a].sstats| == |rosters|
    requires AllLinked(s, rosters, owner) && forall y | y in owner :: y.asgt < |s|
    requires |roster| == |Flatten(rosters)| && forall x | x in Flatten(rosters) :: x in scores
    requires forall i | 0 <= i < |roster| :: Viewed(roster[i], scores[Flatten(rosters)[i]])
    ensures forall i | 0 <= i < |roster| :: AllInPlace(roster[i], s)
    ensures AllInPlace(Flatten(roster), s)
  {
    var all := Flatten(rosters);
    forall i, z | 0 <= i < |roster| && z in roster[i] ensures InPlace(z, s) {
      var j :| 0 <= j < |roster[i]| && roster[i][j] == z;
      var y := scores[all[i]][j];
      assert all[i] in all && y in scores[all[i]];
      FlattenHolds(rosters, all[i]);
      var k :| 0 <= k < |rosters| && all[i] in rosters[k];
      assert owner[y] == all[i];
    }
    forall z | z in Flatten(roster) ensures InPlace(z, s) {
      FlattenHolds(roster, z);
    }
  }

  // ---------------------------------------------------------------------------------------------
  // All the statistics of a course
  // ---------------------------------------------------------------------------------------------

  /** The class record of assignment a is about the counted grades for a, and agrees with its section records. */
  ghost predicate RecordRight(s: seq<AsgtStats>, zs: seq<Score>, a: nat, sqrt: Root)
    requires a < |s|
    reads s[a].cstats, s[a].cstats.chain
  {
    var g, xs := s[a].cstats, GradesFor(zs, a);
    && TabledAndRanked(g, xs) && SummedWithMoments(g, xs, sqrt) && IsRange(g.min, g.max, xs)
    && Moments.Totals(SectionGrades(zs, s[a].sstats)) == (g.valid, g.sum, g.sumsq)
    && g.tallied == g.valid
  }

  lemma LinkedTo(s: seq<AsgtStats>, rosters: seq<seq<Student>>, owner: map<RawScore, Student>, y: RawScore, k: nat)
    requires forall a | 0 <= a < |s| :: |s[a].sstats| == |rosters|
    requires AllLinked(s, rosters, owner)
    requires y in owner && y.asgt < |s| && k < |rosters| && owner[y] in rosters[k]
    ensures y.cstats == s[y.asgt].cstats && y.sstats == s[y.asgt].sstats[k]
  {
  }

  lemma LinkedNotNull(s: seq<AsgtStats>, rosters: seq<seq<Student>>, owner: map<RawScore, Student>, y: RawScore)
    requires forall a | 0 <= a < |s| :: |s[a].sstats| == |rosters|
    requires AllLinked(s, rosters, owner)
    requires y in owner && y.asgt < |s| && owner[y] in Flatten(rosters)
    ensures y.cstats != null && y.sstats != null
  {
    hide AllLinked, Flatten;
    FlattenHolds(rosters, owner[y]);
    var k :| 0 <= k < |rosters| && owner[y] in rosters[k];
    LinkedTo(s, rosters, owner, y, k);
  }

  /** The records of a course, with everything linked to them, and the scores in roster order. */
  method LinkCourse(c: Course, assignments: nat, scores: map<Student, seq<RawScore>>,
                    ghost rosters: seq<seq<Student>>, ghost owner: map<RawScore, Student>)
    returns (s: seq<AsgtStats>, roster: seq<seq<Score>>)
    requires SectionsApart(c.sections, rosters) && SectionLists(c.sections, rosters) && Belong(scores, owner)
    requires forall x | x in Flatten(rosters) :: x in scores
    requires forall y | y in owner :: y.asgt < assignments
    modifies c`roster, (set x | x in Flatten(rosters))`cnext, owner.Keys`cstats, owner.Keys`sstats
    ensures |s| == assignments && Separated(s) && forall a | 0 <= a < |s| :: |s[a].sstats| == |c.sections|
    ensures fresh(Classes(s)) && fresh(Parts(s))
    ensures forall g | g in Classes(s) + Parts(s) :: Blank(g)
    ensures SectionLists(c.sections, rosters)
    ensures IsList(c.roster, CourseLink, if s == [] then [] else Flatten(rosters))
    ensures |rosters| == |c.sections| && AllLinked(s, rosters, owner)
    ensures AllInPlace(Flatten(roster), s) && forall i | 0 <= i < |roster| :: AllInPlace(roster[i], s)
    ensures |roster| == if s == [] then 0 else |Flatten(rosters)|
    ensures forall i | 0 <= i < |roster| :: Viewed(roster[i], scores[Flatten(rosters)[i]])
  {
    s := BuildStats(assignments, |c.sections|);
    hide Separated, AllInPlace;
    DoLinks(c, s, scores, rosters, owner);
    assert |rosters| == |c.sections|;
    if s == [] {
      roster := [];
      NothingInPlace(s);
      return;
    }
    hide SectionsApart, Viewed;
    forall x, y | x in Flatten(rosters) && y in scores[x] ensures y.cstats != null && y.sstats != null {
      assert y in owner && owner[y] == x;
      LinkedNotNull(s, rosters, owner, y);
    }
    roster := ViewRoster(c, scores, Flatten(rosters));
    RosterInPlace(s, rosters, scores, owner, roster);
  }

  lemma NothingInPlace(s: seq<AsgtStats>)
    ensures AllInPlace(Flatten([]), s)
  {
  }

  /** What the accumulated statistics say of the assignments. */
  lemma RecordsAreRight(s: seq<AsgtStats>, zs: seq<Score>, a: nat, sqrt: Root)
    requires AllInPlace(zs, s) && Separated(s) && a < |s|
    requires TabledAndRanked(s[a].cstats, Grades(zs, s[a].cstats))
    requires SummedWithMoments(s[a].cstats, Grades(zs, s[a].cstats), sqrt)
    requires IsRange(s[a].cstats.min, s[a].cstats.max, Grades(zs, s[a].cstats))
    ensures RecordRight(s, zs, a, sqrt)
  {
    RecordsHoldAssignments(zs, s, a);
    ClassTotals(zs, s[a].cstats, s[a].sstats);
  }

  /** Fills the records with the statistics of the linked scores. */
  method FillRecords(s: seq<AsgtStats>, roster: seq<seq<Score>>, sqrt: Root)
    requires Separated(s) && AllInPlace(Flatten(roster), s)
    requires forall i | 0 <= i < |roster| :: AllInPlace(roster[i], s)
    requires forall g | g in Classes(s) + Parts(s) :: Blank(g)
    modifies (Classes(s) + Parts(s))`freqs, (Classes(s) + Parts(s))`chain, (Classes(s) + Parts(s))`tallied
    modifies (Classes(s) + Parts(s))`valid, (Classes(s) + Parts(s))`min, (Classes(s) + Parts(s))`max
    modifies (Classes(s) + Parts(s))`sum, (Classes(s) + Parts(s))`sumsq
    modifies (Classes(s) + Parts(s))`mean, (Classes(s) + Parts(s))`stddev
    ensures forall a | 0 <= a < |s| :: RecordRight(s, Flatten(roster), a, sqrt)
    ensures forall g | g in Parts(s) ::
        && TabledAndRanked(g, Grades(Flatten(roster), g)) && SummedWithMoments(g, Grades(Flatten(roster), g), sqrt)
        && FirstOnly(g, Grades(Flatten(roster), g))
  {
    ghost var zs := Flatten(roster);
    AllGroupsSplit(s);
    forall i | 0 <= i < |roster| ensures Linked(roster[i], Classes(s), Parts(s)) {
      LinkedIntoPlace(roster[i], s);
    }
    hide Flatten, AllInPlace, Linked, TabledAndRanked, SummedWithMoments, IsRange, FirstOnly, AllGroups;
    Accumulate(roster, s, sqrt, Classes(s), Parts(s));
    forall a | 0 <= a < |s| ensures RecordRight(s, zs, a, sqrt) {
      assert s[a].cstats in Classes(s);
      RecordsAreRight(s, zs, a, sqrt);
    }
  }

  /** From nothing but the section rosters and the scores of the students: records for all assignments, everything
      linked to them, and in every record the statistics of just the grades that belong there. The roster returned
      holds the scores of the students in roster order, as linked. */
  method Statistics(c: Course, assignments: nat, scores: map<Student, seq<RawScore>>, sqrt: Root,
                    ghost rosters: seq<seq<Student>>, ghost owner: map<RawScore, Student>)
    returns (s: seq<AsgtStats>, roster: seq<seq<Score>>)
    requires SectionsApart(c.sections, rosters) && SectionLists(c.sections, rosters) && Belong(scores, owner)
    requires forall x | x in Flatten(rosters) :: x in scores
    requires forall y | y in owner :: y.asgt < assignments
    modifies c`roster, (set x | x in Flatten(rosters))`cnext, owner.Keys`cstats, owner.Keys`sstats
    ensures |s| == assignments && Separated(s) && forall a | 0 <= a < |s| :: |s[a].sstats| == |c.sections|
    ensures SectionLists(c.sections, rosters)
    ensures IsList(c.roster, CourseLink, if s == [] then [] else Flatten(rosters))
    ensures |roster| == if s == [] then 0 else |Flatten(rosters)|
    ensures forall i | 0 <= i < |roster| :: Viewed(roster[i], scores[Flatten(rosters)[i]])
    ensures AllInPlace(Flatten(roster), s)
    ensures forall a | 0 <= a < |s| :: RecordRight(s, Flatten(roster), a, sqrt)
    ensures forall g | g in Parts(s) ::
        && TabledAndRanked(g, Grades(Flatten(roster), g)) && SummedWithMoments(g, Grades(Flatten(roster), g), sqrt)
        && FirstOnly(g, Grades(Flatten(roster), g))
  {
    s, roster := LinkCourse(c, assignments, scores, rosters, owner);
    ghost var all := if s == [] then [] else Flatten(rosters);
    ChainsAreLists(c, rosters);
    CourseChainIsList(c.roster, all);
    hide Flatten, AllInPlace, Separated, IsList, SectionLists, RecordRight, Blank, Viewed;
    label Linked:
    FillRecords(s, roster, sqrt);
    forall i | 0 <= i < |roster| ensures Viewed(roster[i], scores[Flatten(rosters)[i]]) {
      assert old@Linked(Viewed(roster[i], scores[Flatten(rosters)[i]]));
    }
    ChainsAreLists(c, rosters);
    CourseChainIsList(c.roster, all);
  }
}
