/** The statistics of a course: tallies, quantiles, sums and moments of every assignment, for the whole class
    and for each section (grades/src/stats.c 124-134, 188-323). */
module CourseStats {

  import opened Frequencies
  import opened Moments
  import opened ScoreTables
  import opened Sequences

  datatype Gflag = Valid | Invalid
  datatype Gsubst = UseRaw | UseNorm | UseLikeAvg | UseClassAvg

  /** The statistics of one assignment, for the class or for one section. The buckets that freqs leads to are
      kept beside it. */
  class Group {
    var valid: nat
    var tallied: nat
    var sum: real
    var sumsq: real
    var min: real
    var max: real
    var mean: real
    var stddev: real
    var freqs: Freqs?
    ghost var chain: seq<Freqs>

    constructor ()
      ensures valid == tallied == 0 && sum == sumsq == 0.0 && freqs == null && chain == []
    {
      valid, tallied, sum, sumsq := 0, 0, 0.0, 0.0;
      min, max, mean, stddev := 0.0, 0.0, 0.0, 0.0;
      freqs, chain := null, [];
    }
  }

  /** A raw score of a student, linked to the statistics of its assignment. */
  datatype Score = Score(asgt: nat, grade: real, flag: Gflag, subst: Gsubst, cstats: Group, sstats: Group) {
    /** Only these scores enter the statistics. */
    predicate Counted() {
      flag == Valid || subst == UseRaw
    }
  }

  /** The grades that enter the statistics of a group, in roster order. */
  ghost function Grades(scores: seq<Score>, g: Group): seq<real> {
    if scores == [] then []
    else
      var last := scores[|scores| - 1];
      Grades(scores[..|scores| - 1], g)
        + (if last.Counted() && (last.cstats == g || last.sstats == g) then [last.grade] else [])
  }

  ghost predicate LinkedInto(scores: seq<Score>, groups: set<Group>) {
    forall s | s in scores && s.Counted() :: s.cstats in groups && s.sstats in groups
  }

  /** Every counted score is linked to a class and to a section. */
  ghost predicate Linked(scores: seq<Score>, classes: set<Group>, sections: set<Group>) {
    forall s | s in scores && s.Counted() :: s.cstats in classes && s.sstats in sections
  }

  lemma GradesOfNext(scores: seq<Score>, s: Score, g: Group)
    ensures Grades(scores + [s], g) == Grades(scores, g)
              + (if s.Counted() && (s.cstats == g || s.sstats == g) then [s.grade] else [])
  {
    assert (scores + [s])[..|scores|] == scores;
  }

  // ---------------------------------------------------------------------------------------------
  // Frequency tables
  // ---------------------------------------------------------------------------------------------

  /** The frequency table of a group is that of the given grades. */
  ghost predicate Tabled(g: Group, xs: seq<real>)
    reads g`freqs, g`chain, g`tallied, g.chain
  {
    IsList(g.freqs, g.chain) && Shows(g.chain, TallyAll(xs)) && g.tallied == |xs|
  }

  /** No two groups share a bucket. */
  ghost predicate Separate(groups: set<Group>)
    reads groups
  {
    forall g, h, f | g in groups && h in groups && g != h && f in g.chain :: f !in h.chain
  }

  ghost predicate Owned(groups: set<Group>, nodes: set<Freqs>)
    reads groups
  {
    forall g, f | g in groups && f in g.chain :: f in nodes
  }

  method TallyIn(g: Group, grade: real, ghost xs: seq<real>)
    requires Tabled(g, xs)
    modifies g`freqs, g`chain, g`tallied, g.chain
    ensures Tabled(g, xs + [grade])
    ensures forall f | f in g.chain :: f in old(g.chain) || fresh(f)
  {
    assert (xs + [grade])[..|xs|] == xs;
    ghost var now;
    g.freqs, now := CountScore(grade, g.freqs, g.chain, TallyAll(xs));
    g.chain := now;
    g.tallied := g.tallied + 1;
  }

  /** A counted score is given to its class and to its section. */
  ghost function Give(given: map<Group, seq<real>>, s: Score): map<Group, seq<real>>
    requires s.Counted() ==> s.cstats in given && s.sstats in given
  {
    if !s.Counted() then given
    else
      var once := given[s.cstats := given[s.cstats] + [s.grade]];
      once[s.sstats := once[s.sstats] + [s.grade]]
  }

  ghost function GiveAll(groups: set<Group>, scores: seq<Score>): (given: map<Group, seq<real>>)
    requires LinkedInto(scores, groups)
    ensures given.Keys == groups
  {
    if scores == [] then map g | g in groups :: []
    else Give(GiveAll(groups, scores[..|scores| - 1]), scores[|scores| - 1])
  }

  /** Every group has the table of the grades it has been given, in buckets of its own. */
  ghost predicate AllTabled(tables: map<Group, seq<real>>, nodes: set<Freqs>)
    reads tables.Keys, nodes
  {
    && Separate(tables.Keys) && Owned(tables.Keys, nodes)
    && forall g | g in tables :: Tabled(g, tables[g])
  }

  method TallyAmong(g: Group, grade: real, ghost tables: map<Group, seq<real>>, ghost nodes: set<Freqs>)
    returns (ghost now: set<Freqs>)
    requires g in tables && AllTabled(tables, nodes)
    modifies tables.Keys`freqs, tables.Keys`chain, tables.Keys`tallied, nodes
    ensures AllTabled(tables[g := tables[g] + [grade]], now)
    ensures fresh(now - nodes)
  {
    TallyIn(g, grade, tables[g]);
    now := nodes + set f | f in g.chain;
    assert tables[g := tables[g] + [grade]].Keys == tables.Keys;
    forall h | h in tables && h != g ensures Tabled(h, tables[h]) {
      ghost var c := h.chain;
      assert old(Tabled(h, tables[h])) && c == old(h.chain);
      forall i | 0 <= i < |c| ensures unchanged(c[i]) && Next(c[i]) == After(c, i) {
        assert c[i] in c;
        assert old(Next(c[i])) == After(c, i);
      }
    }
  }

  /** What a group has been given are the grades of the counted scores that are linked to it. */
  lemma {:induction false} GivenIsGrades(classes: set<Group>, sections: set<Group>, scores: seq<Score>, g: Group)
    requires classes !! sections && Linked(scores, classes, sections)
    requires g in classes + sections
    ensures GiveAll(classes + sections, scores)[g] == Grades(scores, g)
  {
    if scores != [] {
      GivenIsGrades(classes, sections, scores[..|scores| - 1], g);
      assert scores[|scores| - 1] in scores;
    }
  }

  method TallyScore(scp: Score, ghost given: map<Group, seq<real>>, ghost nodes: set<Freqs>)
    returns (ghost now: set<Freqs>)
    requires scp.Counted() ==> scp.cstats in given && scp.sstats in given
    requires AllTabled(given, nodes)
    modifies given.Keys`freqs, given.Keys`chain, given.Keys`tallied, nodes
    ensures AllTabled(Give(given, scp), now) && fresh(now - nodes)
  {
    hide AllTabled;
    now := nodes;
    if scp.Counted() {
      ghost var once := given[scp.cstats := given[scp.cstats] + [scp.grade]];
      now := TallyAmong(scp.cstats, scp.grade, given, now);
      assert once.Keys == given.Keys;
      now := TallyAmong(scp.sstats, scp.grade, once, now);
    }
  }

  method TallyStudent(rawscores: seq<Score>, ghost groups: set<Group>, ghost before: seq<Score>,
                      ghost nodes: set<Freqs>)
    returns (ghost now: set<Freqs>)
    requires LinkedInto(before, groups) && LinkedInto(rawscores, groups)
    requires AllTabled(GiveAll(groups, before), nodes)
    modifies groups`freqs, groups`chain, groups`tallied, nodes
    ensures AllTabled(GiveAll(groups, before + rawscores), now) && fresh(now - nodes)
  {
    hide AllTabled;
    now := nodes;
    assert before + rawscores[..0] == before;
    for j := 0 to |rawscores|
      invariant AllTabled(GiveAll(groups, before + rawscores[..j]), now) && fresh(now - nodes)
    {
      var scp := rawscores[j];
      ghost var seen := before + rawscores[..j];
      assert before + rawscores[..j + 1] == seen + [scp] && (seen + [scp])[..|seen|] == seen;
      now := TallyScore(scp, GiveAll(groups, seen), now);
    }
    assert rawscores[..|rawscores|] == rawscores;
  }

  lemma {:induction false} FlattenLinked(roster: seq<seq<Score>>, groups: set<Group>)
    requires forall i | 0 <= i < |roster| :: LinkedInto(roster[i], groups)
    ensures LinkedInto(Flatten(roster), groups)
  {
    if roster != [] {
      FlattenLinked(roster[..|roster| - 1], groups);
    }
  }

  /** Tallies every counted score of every student in its class table and in its section table. */
  method DoFreqs(roster: seq<seq<Score>>, ghost groups: set<Group>) returns (ghost nodes: set<Freqs>)
    requires forall i | 0 <= i < |roster| :: LinkedInto(roster[i], groups)
    requires forall g | g in groups :: g.freqs == null && g.chain == [] && g.tallied == 0
    modifies groups`freqs, groups`chain, groups`tallied
    ensures LinkedInto(Flatten(roster), groups)
    ensures AllTabled(GiveAll(groups, Flatten(roster)), nodes) && fresh(nodes)
  {
    nodes := {};
    assert AllTabled(GiveAll(groups, []), nodes);
    hide AllTabled;
    for i := 0 to |roster|
      invariant LinkedInto(Flatten(roster[..i]), groups)
      invariant AllTabled(GiveAll(groups, Flatten(roster[..i])), nodes) && fresh(nodes)
    {
      assert roster[..i + 1][..i] == roster[..i];
      FlattenLinked(roster[..i + 1], groups);
      nodes := TallyStudent(roster[i], groups, Flatten(roster[..i]), nodes);
    }
    assert roster[..|roster|] == roster;
  }

  // ---------------------------------------------------------------------------------------------
  // Quantiles
  // ---------------------------------------------------------------------------------------------

  /** The statistics of one assignment: of the class, and of its sections. */
  datatype AsgtStats = AsgtStats(cstats: Group, sstats: seq<Group>)

  function GroupsOf(a: AsgtStats): set<Group> {
    {a.cstats} + set g | g in a.sstats
  }

  function AllGroups(s: seq<AsgtStats>): set<Group> {
    if s == [] then {} else AllGroups(s[..|s| - 1]) + GroupsOf(s[|s| - 1])
  }

  lemma {:induction false} AllGroupsHolds(s: seq<AsgtStats>, i: nat)
    requires i < |s|
    ensures GroupsOf(s[i]) <= AllGroups(s)
    ensures AllGroups(s[..i + 1]) == AllGroups(s[..i]) + GroupsOf(s[i])
  {
    assert s[..i + 1][..i] == s[..i];
    if i < |s| - 1 {
      AllGroupsHolds(s[..|s| - 1], i);
    }
  }

  /** Every group has its table, and the groups of done have theirs ranked. */
  ghost predicate AllRanked(given: map<Group, seq<real>>, done: set<Group>, nodes: set<Freqs>)
    reads given.Keys, nodes
  {
    && AllTabled(given, nodes) && done <= given.Keys
    && (forall g | g in given && g in done :: Ranked(g.chain, TallyAll(given[g])))
  }

  method RankAmong(g: Group, ghost given: map<Group, seq<real>>, ghost done: set<Group>, ghost nodes: set<Freqs>)
    requires AllRanked(given, done, nodes) && g in given
    modifies nodes
    ensures AllRanked(given, done + {g}, nodes)
  {
    FillQuantiles(g.freqs, g.chain, TallyAll(given[g]));
    forall h | h in given && h != g
      ensures Tabled(h, given[h]) && (h in done ==> Ranked(h.chain, TallyAll(given[h])))
    {
      ghost var c := h.chain;
      assert old(Tabled(h, given[h]));
      forall i | 0 <= i < |c| ensures unchanged(c[i]) && Next(c[i]) == After(c, i) {
        assert c[i] in c;
        assert old(Next(c[i])) == After(c, i);
      }
    }
  }

  method RankAssignment(a: AsgtStats, ghost given: map<Group, seq<real>>, ghost done: set<Group>,
                        ghost nodes: set<Freqs>)
    requires AllRanked(given, done, nodes) && GroupsOf(a) <= given.Keys
    modifies nodes
    ensures AllRanked(given, done + GroupsOf(a), nodes)
  {
    hide AllRanked;
    RankAmong(a.cstats, given, done, nodes);
    ghost var now := done + {a.cstats};
    for j := 0 to |a.sstats|
      invariant AllRanked(given, now, nodes) && done + {a.cstats} <= now <= done + GroupsOf(a)
      invariant forall k | 0 <= k < j :: a.sstats[k] in now
    {
      assert a.sstats[j] in GroupsOf(a);
      RankAmong(a.sstats[j], given, now, nodes);
      now := now + {a.sstats[j]};
    }
    assert now == done + GroupsOf(a);
  }

  /** Ranks the buckets of every table of every assignment. */
  method DoQuantiles(s: seq<AsgtStats>, ghost given: map<Group, seq<real>>, ghost nodes: set<Freqs>)
    requires AllTabled(given, nodes) && AllGroups(s) <= given.Keys
    modifies nodes
    ensures AllRanked(given, AllGroups(s), nodes)
  {
    assert AllRanked(given, {}, nodes);
    assert AllGroups(s[..0]) == {};
    hide AllTabled, AllRanked, GroupsOf, AllGroups;
    for i := 0 to |s|
      invariant AllRanked(given, AllGroups(s[..i]), nodes)
    {
      AllGroupsHolds(s, i);
      RankAssignment(s[i], given, AllGroups(s[..i]), nodes);
    }
    assert s[..|s|] == s;
  }

  // ---------------------------------------------------------------------------------------------
  // Sums
  // ---------------------------------------------------------------------------------------------

  ghost predicate Summed(g: Group, xs: seq<real>)
    reads g
  {
    g.valid == |xs| && g.sum == Sum(xs) && g.sumsq == SumSquares(xs)
  }

  /** The least and the greatest of the grades, if there are any. */
  ghost predicate IsRange(min: real, max: real, xs: seq<real>) {
    xs != [] ==> min in xs && max in xs && forall x | x in xs :: min <= x <= max
  }

  lemma RangeNext(min: real, max: real, xs: seq<real>, x: real)
    requires IsRange(min, max, xs)
    ensures IsRange(if xs == [] || x < min then x else min, if xs == [] || x > max then x else max, xs + [x])
  {
  }

  /** A section keeps its first grade in both places: the branches meant for its later grades compare with, and
      write to, the class. */
  ghost predicate FirstOnly(g: Group, xs: seq<real>)
    reads g
  {
    xs != [] ==> g.min == g.max == xs[0]
  }

  /** So a section has the range of its grades exactly when they are all the same. */
  lemma SectionRangeIff(g: Group, xs: seq<real>)
    requires FirstOnly(g, xs) && xs != []
    ensures IsRange(g.min, g.max, xs) <==> forall x | x in xs :: x == xs[0]
  {
    assert xs[0] in xs;
    if IsRange(g.min, g.max, xs) {
      forall x | x in xs ensures x == xs[0] {
      }
    }
  }

  /** It fails with two different grades. */
  lemma SectionRangeFails(g: Group)
    requires FirstOnly(g, [1.0, 2.0])
    ensures !IsRange(g.min, g.max, [1.0, 2.0])
  {
    assert [1.0, 2.0][1] in [1.0, 2.0];
  }

  ghost predicate AllSummed(given: map<Group, seq<real>>, classes: set<Group>, sections: set<Group>)
    reads given.Keys
  {
    && given.Keys == classes + sections
    && (forall g | g in given :: Summed(g, given[g]))
    && (forall g | g in classes :: IsRange(g.min, g.max, given[g]))
    && (forall g | g in sections :: FirstOnly(g, given[g]))
  }

  /** The body of the loop, for one counted score. */
  method SumInto(csp: Group, ssp: Group, grade: real)
    requires csp != ssp
    modifies csp`valid, csp`min, csp`max, csp`sum, csp`sumsq, ssp`valid, ssp`min, ssp`max, ssp`sum, ssp`sumsq
    ensures csp.valid == old(csp.valid) + 1 && ssp.valid == old(ssp.valid) + 1
    ensures csp.sum == old(csp.sum) + grade && ssp.sum == old(ssp.sum) + grade
    ensures csp.sumsq == old(csp.sumsq) + Square(grade) && ssp.sumsq == old(ssp.sumsq) + Square(grade)
    ensures csp.min == if old(csp.valid) == 0 || grade < old(csp.min) then grade else old(csp.min)
    ensures csp.max == if old(csp.valid) == 0 || grade > old(csp.max) then grade else old(csp.max)
    ensures ssp.min == if old(ssp.valid) == 0 then grade else old(ssp.min)
    ensures ssp.max == if old(ssp.valid) == 0 then grade else old(ssp.max)
  {
    var g := grade;
    csp.valid := csp.valid + 1;
    if csp.valid == 1 {
      csp.min, csp.max := g, g;
    } else {
      if g < csp.min { csp.min := g; }
      if g > csp.max { csp.max := g; }
    }
    ssp.valid := ssp.valid + 1;
    if ssp.valid == 1 {
      ssp.min, ssp.max := g, g;
    } else {
      if g < csp.min { csp.min := g; }
      if g > csp.max { csp.max := g; }
    }
    csp.sum := csp.sum + g;
    ssp.sum := ssp.sum + g;
    g := Square(g);
    csp.sumsq := csp.sumsq + g;
    ssp.sumsq := ssp.sumsq + g;
  }

  /** So each of the two records is given one more grade. */
  method SumGrade(csp: Group, ssp: Group, g: real, ghost xs: seq<real>, ghost ys: seq<real>)
    requires csp != ssp
    requires Summed(csp, xs) && IsRange(csp.min, csp.max, xs) && Summed(ssp, ys) && FirstOnly(ssp, ys)
    modifies csp`valid, csp`min, csp`max, csp`sum, csp`sumsq, ssp`valid, ssp`min, ssp`max, ssp`sum, ssp`sumsq
    ensures Summed(csp, xs + [g]) && IsRange(csp.min, csp.max, xs + [g])
    ensures Summed(ssp, ys + [g]) && FirstOnly(ssp, ys + [g])
  {
    SumNext(xs, g);
    SumNext(ys, g);
    RangeNext(csp.min, csp.max, xs, g);
    hide Sum, SumSquares, IsRange, Square;
    SumInto(csp, ssp, g);
  }

  method SumScore(scp: Score, ghost given: map<Group, seq<real>>, ghost classes: set<Group>,
                  ghost sections: set<Group>)
    requires classes !! sections && AllSummed(given, classes, sections)
    requires scp.Counted() ==> scp.cstats in classes && scp.sstats in sections
    modifies given.Keys`valid, given.Keys`min, given.Keys`max, given.Keys`sum, given.Keys`sumsq
    ensures AllSummed(Give(given, scp), classes, sections)
  {
    if scp.Counted() {
      var csp, ssp, g := scp.cstats, scp.sstats, scp.grade;
      ghost var now := Give(given, scp);
      assert now[csp] == given[csp] + [g] && now[ssp] == given[ssp] + [g];
      assert now.Keys == given.Keys && forall h | h in given && h != csp && h != ssp :: now[h] == given[h];
      assert Summed(csp, given[csp]) && Summed(ssp, given[ssp]) && FirstOnly(ssp, given[ssp]);
      hide Sum, SumSquares, IsRange, Square, Give;
      SumGrade(csp, ssp, g, given[csp], given[ssp]);
      forall h | h in given && h != csp && h != ssp ensures now[h] == given[h] && unchanged(h) {
      }
    }
  }

  lemma SumNext(xs: seq<real>, x: real)
    ensures Sum(xs + [x]) == Sum(xs) + x && SumSquares(xs + [x]) == SumSquares(xs) + Square(x)
  {
    assert (xs + [x])[..|xs|] == xs;
  }

  method SumStudent(rawscores: seq<Score>, ghost classes: set<Group>, ghost sections: set<Group>,
                    ghost before: seq<Score>)
    requires classes !! sections && Linked(before, classes, sections) && Linked(rawscores, classes, sections)
    requires AllSummed(GiveAll(classes + sections, before), classes, sections)
    modifies (classes + sections)`valid, (classes + sections)`min, (classes + sections)`max
    modifies (classes + sections)`sum, (classes + sections)`sumsq
    ensures AllSummed(GiveAll(classes + sections, before + rawscores), classes, sections)
  {
    hide AllSummed;
    assert before + rawscores[..0] == before;
    for j := 0 to |rawscores|
      invariant AllSummed(GiveAll(classes + sections, before + rawscores[..j]), classes, sections)
    {
      var scp := rawscores[j];
      ghost var seen := before + rawscores[..j];
      assert before + rawscores[..j + 1] == seen + [scp] && (seen + [scp])[..|seen|] == seen;
      SumScore(scp, GiveAll(classes + sections, seen), classes, sections);
    }
    assert rawscores[..|rawscores|] == rawscores;
  }

  lemma {:induction false} FlattenLinks(roster: seq<seq<Score>>, classes: set<Group>, sections: set<Group>)
    requires forall i | 0 <= i < |roster| :: Linked(roster[i], classes, sections)
    ensures Linked(Flatten(roster), classes, sections)
  {
    if roster != [] {
      FlattenLinks(roster[..|roster| - 1], classes, sections);
    }
  }

  lemma UnfoldSums(scores: seq<Score>, classes: set<Group>, sections: set<Group>)
    requires classes !! sections && Linked(scores, classes, sections)
    requires AllSummed(GiveAll(classes + sections, scores), classes, sections)
    ensures forall g | g in classes + sections :: Summed(g, Grades(scores, g))
    ensures forall g | g in classes :: IsRange(g.min, g.max, Grades(scores, g))
    ensures forall g | g in sections :: FirstOnly(g, Grades(scores, g))
  {
    ghost var given := GiveAll(classes + sections, scores);
    forall g | g in classes + sections ensures given[g] == Grades(scores, g) {
      GivenIsGrades(classes, sections, scores, g);
    }
    hide GiveAll, Grades, Sum, SumSquares, IsRange;
  }

  /** Adds every counted score of every student into the sums of its class and of its section. */
  method DoSums(roster: seq<seq<Score>>, ghost classes: set<Group>, ghost sections: set<Group>)
    requires classes !! sections
    requires forall i | 0 <= i < |roster| :: Linked(roster[i], classes, sections)
    requires forall g | g in classes + sections :: g.valid == 0 && g.sum == g.sumsq == 0.0
    modifies (classes + sections)`valid, (classes + sections)`min, (classes + sections)`max
    modifies (classes + sections)`sum, (classes + sections)`sumsq
    ensures Linked(Flatten(roster), classes, sections)
    ensures forall g | g in classes + sections :: Summed(g, Grades(Flatten(roster), g))
    ensures forall g | g in classes :: IsRange(g.min, g.max, Grades(Flatten(roster), g))
    ensures forall g | g in sections :: FirstOnly(g, Grades(Flatten(roster), g))
  {
    assert AllSummed(GiveAll(classes + sections, []), classes, sections);
    hide AllSummed;
    for i := 0 to |roster|
      invariant Linked(Flatten(roster[..i]), classes, sections)
      invariant AllSummed(GiveAll(classes + sections, Flatten(roster[..i])), classes, sections)
    {
      assert roster[..i + 1][..i] == roster[..i];
      FlattenLinks(roster[..i + 1], classes, sections);
      SumStudent(roster[i], classes, sections, Flatten(roster[..i]));
    }
    assert roster[..|roster|] == roster;
    UnfoldSums(Flatten(roster), classes, sections);
  }

  // ---------------------------------------------------------------------------------------------
  // Class and sections
  // ---------------------------------------------------------------------------------------------

  /** What each of the given sections is given. */
  ghost function SectionGrades(scores: seq<Score>, ss: seq<Group>): seq<seq<real>> {
    seq(|ss|, i requires 0 <= i < |ss| => Grades(scores, ss[i]))
  }

  /** The sections of ss are those of class c: a counted score is in the class exactly when it is in one of
      them. */
  ghost predicate Sectioned(scores: seq<Score>, c: Group, ss: seq<Group>) {
    && (forall i, j | 0 <= i < j < |ss| :: ss[i] != ss[j])
    && (forall s | s in scores && s.Counted() ::
          s.sstats != c && s.cstats !in ss && (s.cstats == c <==> s.sstats in ss))
  }

  lemma SectionGradesNext(scores: seq<Score>, s: Score, ss: seq<Group>, k: int)
    requires forall i, j | 0 <= i < j < |ss| :: ss[i] != ss[j]
    requires s.Counted() ==> s.cstats !in ss
    requires if s.Counted() && s.sstats in ss then 0 <= k < |ss| && s.sstats == ss[k] else k == -1
    ensures SectionGrades(scores + [s], ss)
         == if k == -1 then SectionGrades(scores, ss)
            else SectionGrades(scores, ss)[k := Grades(scores, ss[k]) + [s.grade]]
  {
    forall i | 0 <= i < |ss|
      ensures Grades(scores + [s], ss[i]) == Grades(scores, ss[i]) + (if i == k then [s.grade] else [])
    {
      GradesOfNext(scores, s, ss[i]);
      assert ss[i] in ss;
    }
    var was, now := SectionGrades(scores, ss), SectionGrades(scores + [s], ss);
    forall i | 0 <= i < |ss| && i != k ensures now[i] == was[i] {
    }
  }

  /** The class is given exactly the grades that its sections are given. */
  lemma {:induction false} ClassIsItsSections(scores: seq<Score>, c: Group, ss: seq<Group>)
    requires Sectioned(scores, c, ss)
    ensures multiset(Grades(scores, c)) == multiset(Pool(SectionGrades(scores, ss)))
  {
    if scores == [] {
      PoolOfNone(SectionGrades(scores, ss));
    } else {
      var front, s := scores[..|scores| - 1], scores[|scores| - 1];
      assert scores == front + [s] && s in scores;
      ClassIsItsSections(front, c, ss);
      GradesOfNext(front, s, c);
      if s.Counted() && s.sstats in ss {
        var k :| 0 <= k < |ss| && s.sstats == ss[k];
        SectionGradesNext(front, s, ss, k);
        PoolOneMore(SectionGrades(front, ss), k, s.grade);
      } else {
        SectionGradesNext(front, s, ss, -1);
      }
    }
  }

  lemma {:induction false} PoolOfNone(xss: seq<seq<real>>)
    requires forall i | 0 <= i < |xss| :: xss[i] == []
    ensures Pool(xss) == []
  {
    if xss != [] { PoolOfNone(xss[1..]); }
  }

  /** Nothing is lost or counted twice between a class and its sections: the number of scores, their sum and the
      sum of their squares are the totals over the sections, and the class table is the table of the pooled
      grades of the sections. */
  lemma ClassTotals(scores: seq<Score>, c: Group, ss: seq<Group>)
    requires Sectioned(scores, c, ss)
    ensures var xs, xss := Grades(scores, c), SectionGrades(scores, ss);
      && Totals(xss) == (|xs|, Sum(xs), SumSquares(xs))
      && TallyAll(xs) == TallyAll(Pool(xss))
  {
    var xs, xss := Grades(scores, c), SectionGrades(scores, ss);
    ClassIsItsSections(scores, c, ss);
    SumOfPermutation(xs, Pool(xss));
    TotalsOfPool(xss);
    TallyAllContents(xs);
    TallyAllContents(Pool(xss));
    TableIsUnique(TallyAll(xs), TallyAll(Pool(xss)));
  }

  /** The least and the greatest grade of a class are its first and its last bucket. */
  lemma RangeIsTable(min: real, max: real, xs: seq<real>)
    requires xs != [] && IsRange(min, max, xs)
    ensures var bs := TallyAll(xs); bs != [] && min == bs[0].score && max == bs[|bs| - 1].score
  {
    TableSpansScores(xs);
  }

  // ---------------------------------------------------------------------------------------------
  // Moments
  // ---------------------------------------------------------------------------------------------

  /** The square root the program is linked with. */
  type Root = real -> real

  function Stddev(n: nat, sum: real, sumsq: real, sqrt: Root): real {
    if n >= 2 then sqrt(SampleVariance(n, sum, sumsq)) else 0.0
  }

  ghost predicate HasMoments(g: Group, sqrt: Root)
    reads g
  {
    && g.mean == (if g.valid == 0 then 0.0 else g.sum / g.valid as real)
    && g.stddev == Stddev(g.valid, g.sum, g.sumsq, sqrt)
  }

  lemma MeanTimes(g: Group, xs: seq<real>, sqrt: Root)
    requires Summed(g, xs) && HasMoments(g, sqrt) && xs != []
    ensures g.mean * |xs| as real == Sum(xs) && g.mean == Mean(xs)
  {
    var n := |xs| as real;
    assert (Sum(xs) / n) * n == Sum(xs);
  }

  lemma VarianceTimes(xs: seq<real>)
    requires |xs| >= 2
    ensures Variance(xs) * (|xs| - 1) as real == Spread(xs, Mean(xs))
  {
    ResidualIsSpread(xs);
    var n, r := (|xs| - 1) as real, Residual(|xs|, Sum(xs), SumSquares(xs));
    hide Sum, SumSquares, Residual, Spread, Mean;
    assert (r / n) * n == r;
  }

  /** The mean times the number of grades is their sum, and the square of the deviation times one less than their
      number is the sum of the squared distances from the mean. With one grade or none there is no deviation. */
  lemma MomentsAre(g: Group, xs: seq<real>, sqrt: Root)
    requires Summed(g, xs) && HasMoments(g, sqrt)
    requires |xs| >= 2 ==> sqrt(Variance(xs)) >= 0.0 && Square(sqrt(Variance(xs))) == Variance(xs)
    ensures xs == [] ==> g.mean == 0.0
    ensures xs != [] ==> g.mean * |xs| as real == Sum(xs)
    ensures if |xs| < 2 then g.stddev == 0.0
      else g.stddev >= 0.0 && Square(g.stddev) * (|xs| - 1) as real == Spread(xs, g.mean)
  {
    if xs != [] {
      MeanTimes(g, xs, sqrt);
    }
    if |xs| >= 2 {
      assert g.stddev == sqrt(Variance(xs));
      hide *;
      VarianceTimes(xs);
    }
  }

  /** For two grades the spread is half the square of their distance. */
  lemma SpreadOfTwo(x: real, y: real)
    ensures var m := (x + y) / 2.0; Spread([x, y], m) == (x - y) * (x - y) / 2.0
  {
    var m := (x + y) / 2.0;
    assert [x, y][..1] == [x] && [x][..0] == [];
    assert Spread([x], m) == Square(x - m);
    assert Spread([x, y], m) == Square(x - m) + Square(y - m);
    var d := x - y;
    assert x - m == d / 2.0 && y - m == -d / 2.0;
    assert Square(x - m) == d * d / 4.0 && Square(y - m) == d * d / 4.0;
  }

  method MomentsOf(g: Group, sqrt: Root)
    modifies g`mean, g`stddev
    ensures HasMoments(g, sqrt)
  {
    if g.valid != 0 {
      g.mean := g.sum / g.valid as real;
      if g.valid == 1 {
        g.stddev := 0.0;
      } else {
        g.stddev := Stddev(g.valid, g.sum, g.sumsq, sqrt);
      }
    } else {
      g.mean, g.stddev := 0.0, 0.0;
    }
  }

  method AssignmentMoments(a: AsgtStats, sqrt: Root)
    modifies GroupsOf(a)`mean, GroupsOf(a)`stddev
    ensures forall g | g in GroupsOf(a) :: HasMoments(g, sqrt)
  {
    MomentsOf(a.cstats, sqrt);
    for j := 0 to |a.sstats|
      invariant HasMoments(a.cstats, sqrt) && forall k | 0 <= k < j :: HasMoments(a.sstats[k], sqrt)
    {
      assert a.sstats[j] in GroupsOf(a);
      MomentsOf(a.sstats[j], sqrt);
    }
  }

  /** The moments of the class and of each section of every assignment. */
  method DoMoments(s: seq<AsgtStats>, sqrt: Root, ghost groups: set<Group>)
    requires AllGroups(s) == groups
    modifies groups`mean, groups`stddev
    ensures forall g | g in groups :: HasMoments(g, sqrt)
  {
    assert AllGroups(s[..0]) == {};
    hide GroupsOf, AllGroups;
    for i := 0 to |s|
      invariant forall g | g in groups && g in AllGroups(s[..i]) :: HasMoments(g, sqrt)
    {
      AllGroupsHolds(s, i);
      label Before:
      AssignmentMoments(s[i], sqrt);
      forall g | g in groups && g in AllGroups(s[..i]) && g !in GroupsOf(s[i]) ensures HasMoments(g, sqrt) {
        assert old@Before(HasMoments(g, sqrt)) && unchanged@Before(g);
      }
    }
    assert s[..|s|] == s;
  }

  // ---------------------------------------------------------------------------------------------
  // All the statistics of a course
  // ---------------------------------------------------------------------------------------------

  ghost predicate TabledAndRanked(g: Group, xs: seq<real>)
    reads g`freqs, g`chain, g`tallied, g.chain
  {
    Tabled(g, xs) && Ranked(g.chain, TallyAll(xs))
  }

  method FreqsAndQuantiles(roster: seq<seq<Score>>, s: seq<AsgtStats>, ghost classes: set<Group>,
                           ghost sections: set<Group>)
    requires classes !! sections && AllGroups(s) == classes + sections
    requires forall i | 0 <= i < |roster| :: Linked(roster[i], classes, sections)
    requires forall g | g in classes + sections :: g.tallied == 0 && g.freqs == null && g.chain == []
    modifies (classes + sections)`freqs, (classes + sections)`chain, (classes + sections)`tallied
    ensures Linked(Flatten(roster), classes, sections)
    ensures forall g | g in classes + sections :: TabledAndRanked(g, Grades(Flatten(roster), g))
  {
    ghost var groups := classes + sections;
    assert forall i | 0 <= i < |roster| :: Linked(roster[i], classes, sections) && LinkedInto(roster[i], groups);
    hide AllGroups, Linked, LinkedInto, Flatten, TallyAll, Grades, Tabled, Ranked, Separate, Owned;
    ghost var nodes := DoFreqs(roster, groups);
    FlattenLinks(roster, classes, sections);
    ghost var given := GiveAll(groups, Flatten(roster));
    DoQuantiles(s, given, nodes);
    forall g | g in groups ensures TabledAndRanked(g, Grades(Flatten(roster), g)) {
      GivenIsGrades(classes, sections, Flatten(roster), g);
    }
  }

  ghost predicate SummedWithMoments(g: Group, xs: seq<real>, sqrt: Root)
    reads g
  {
    Summed(g, xs) && HasMoments(g, sqrt)
  }

  method SumsAndMoments(roster: seq<seq<Score>>, s: seq<AsgtStats>, sqrt: Root, ghost classes: set<Group>,
                        ghost sections: set<Group>)
    requires classes !! sections && AllGroups(s) == classes + sections
    requires forall i | 0 <= i < |roster| :: Linked(roster[i], classes, sections)
    requires forall g | g in classes + sections :: g.valid == 0 && g.sum == g.sumsq == 0.0
    modifies (classes + sections)`valid, (classes + sections)`min, (classes + sections)`max
    modifies (classes + sections)`sum, (classes + sections)`sumsq
    modifies (classes + sections)`mean, (classes + sections)`stddev
    ensures forall g | g in classes + sections :: SummedWithMoments(g, Grades(Flatten(roster), g), sqrt)
    ensures forall g | g in classes :: IsRange(g.min, g.max, Grades(Flatten(roster), g))
    ensures forall g | g in sections :: FirstOnly(g, Grades(Flatten(roster), g))
  {
    hide AllGroups, Linked, Flatten, Grades, Sum, SumSquares, IsRange;
    DoSums(roster, classes, sections);
    label Sums:
    DoMoments(s, sqrt, classes + sections);
    forall g | g in classes + sections ensures Summed(g, Grades(Flatten(roster), g)) {
      assert old@Sums(Summed(g, Grades(Flatten(roster), g)));
    }
    forall g | g in sections ensures FirstOnly(g, Grades(Flatten(roster), g)) {
      assert old@Sums(FirstOnly(g, Grades(Flatten(roster), g)));
    }
  }

  /** All the statistics of every class and section are about the grades that are counted in it. */
  method Accumulate(roster: seq<seq<Score>>, s: seq<AsgtStats>, sqrt: Root,
                    ghost classes: set<Group>, ghost sections: set<Group>)
    requires classes !! sections && AllGroups(s) == classes + sections
    requires forall i | 0 <= i < |roster| :: Linked(roster[i], classes, sections)
    requires forall g | g in classes + sections ::
        g.valid == g.tallied == 0 && g.sum == g.sumsq == 0.0 && g.freqs == null && g.chain == []
    modifies (classes + sections)`freqs, (classes + sections)`chain, (classes + sections)`tallied
    modifies (classes + sections)`valid, (classes + sections)`min, (classes + sections)`max
    modifies (classes + sections)`sum, (classes + sections)`sumsq
    modifies (classes + sections)`mean, (classes + sections)`stddev
    ensures Linked(Flatten(roster), classes, sections)
    ensures forall g | g in classes + sections ::
        TabledAndRanked(g, Grades(Flatten(roster), g)) && SummedWithMoments(g, Grades(Flatten(roster), g), sqrt)
    ensures forall g | g in classes :: IsRange(g.min, g.max, Grades(Flatten(roster), g))
    ensures forall g | g in sections :: FirstOnly(g, Grades(Flatten(roster), g))
  {
    hide AllGroups, Linked, Grades, Flatten, TallyAll, Sum, SumSquares, Rank, TabledAndRanked;
    FreqsAndQuantiles(roster, s, classes, sections);
    label Ranks:
    SumsAndMoments(roster, s, sqrt, classes, sections);
    forall g | g in classes + sections ensures TabledAndRanked(g, Grades(Flatten(roster), g)) {
      assert old@Ranks(TabledAndRanked(g, Grades(Flatten(roster), g)));
    }
  }
}
