/** Normalizing the scores of an assignment (grades/src/normal.c 52-57, 92-175). */
module Normalization {

  import opened CourseLinks
  import opened CourseStats
  import opened Frequencies
  import opened Moments
  import opened ScoreTables
  import opened Sequences

  datatype Npolicy = RawPolicy | LinearPolicy | QuantilePolicy | ScalePolicy
  datatype Ngroup = ByClass | BySection

  class Assignment {
    const npolicy: Npolicy
    const ngroup: Ngroup
    const mean: real
    const stddev: real
    const scale: real
    var max: real

    constructor (npolicy: Npolicy, ngroup: Ngroup, mean: real, stddev: real, scale: real, max: real)
      ensures this.npolicy == npolicy && this.ngroup == ngroup && this.mean == mean
      ensures this.stddev == stddev && this.scale == scale && this.max == max
    {
      this.npolicy, this.ngroup, this.mean, this.stddev := npolicy, ngroup, mean, stddev;
      this.scale, this.max := scale, max;
    }
  }

  /** The group whose statistics an assignment is normalized by. */
  function Chosen(a: Assignment, csp: Group, ssp: Group): Group {
    if a.ngroup == ByClass then csp else ssp
  }

  function Scaled(s: real, max: real, scale: real): real
    requires max != 0.0
  {
    s * scale / max
  }

  /** All that the normalization of a score depends on. */
  datatype Basis = Basis(policy: Npolicy, rm: real, rd: real, nm: real, nd: real, scale: real, max: real,
                         n: nat, table: seq<Bucket>) {
    function Normal(s: real): real
      requires rd >= EPSILON && max >= EPSILON && n > 0
    {
      match policy
      case RawPolicy => s
      case LinearPolicy => Linear(s, rm, rd, nm, nd)
      case ScalePolicy => Scaled(s, max, scale)
      case QuantilePolicy => Quantile(table, 0, n, s)
    }

    function NormalAll(xs: seq<real>): (ys: seq<real>)
      requires rd >= EPSILON && max >= EPSILON && n > 0
      ensures |ys| == |xs|
    {
      if xs == [] then [] else NormalAll(xs[..|xs| - 1]) + [Normal(xs[|xs| - 1])]
    }

    lemma NormalAllNext(xs: seq<real>, s: real)
      requires rd >= EPSILON && max >= EPSILON && n > 0
      ensures NormalAll(xs + [s]) == NormalAll(xs) + [Normal(s)]
    {
      assert (xs + [s])[..|xs|] == xs;
    }
  }

  /** The basis that an assignment and a group, with the table of the given grades, give. Replacing a deviation or
      a maximum that is too small does not change it. */
  ghost function BasisOf(a: Assignment, g: Group, xs: seq<real>): (b: Basis)
    reads a, g
    ensures b.rd >= EPSILON && b.max >= EPSILON && b.n > 0
  {
    Basis(a.npolicy, g.mean, Divisor(g.stddev), a.mean, a.stddev, a.scale, Divisor(a.max),
          if g.tallied == 0 then 1 else g.tallied, TallyAll(xs))
  }

  /** Normalizes one score. The one thing it may write is the deviation, or the maximum, that it divides by. */
  method Normal(s: real, csp: Group, ssp: Group, a: Assignment, ghost xs: seq<real>) returns (r: real)
    requires TabledAndRanked(Chosen(a, csp, ssp), xs)
    modifies Chosen(a, csp, ssp)`stddev, a`max
    ensures TabledAndRanked(Chosen(a, csp, ssp), xs)
    ensures BasisOf(a, Chosen(a, csp, ssp), xs) == old(BasisOf(a, Chosen(a, csp, ssp), xs))
    ensures r == old(BasisOf(a, Chosen(a, csp, ssp), xs)).Normal(s)
    ensures var g := Chosen(a, csp, ssp);
      g.stddev == if a.npolicy == LinearPolicy && old(g.stddev) < EPSILON then 2.0 * EPSILON else old(g.stddev)
    ensures a.max == if a.npolicy == ScalePolicy && old(a.max) < EPSILON then 2.0 * EPSILON else old(a.max)
  {
    hide Scaled, Linear, TallyAll;
    match a.npolicy
    case RawPolicy => return s;
    case LinearPolicy =>
      if a.ngroup == ByClass {
        if csp.stddev < EPSILON {
          csp.stddev := 2.0 * EPSILON;
        }
        return Linear(s, csp.mean, csp.stddev, a.mean, a.stddev);
      } else {
        if ssp.stddev < EPSILON {
          ssp.stddev := 2.0 * EPSILON;
        }
        return Linear(s, ssp.mean, ssp.stddev, a.mean, a.stddev);
      }
    case ScalePolicy =>
      if a.max < EPSILON {
        a.max := 2.0 * EPSILON;
      }
      return Scaled(s, a.max, a.scale);
    case QuantilePolicy =>
      if a.ngroup == ByClass {
        r := LookUpQuantile(s, csp.freqs, csp.tallied, csp.chain, TallyAll(xs));
      } else {
        r := LookUpQuantile(s, ssp.freqs, ssp.tallied, ssp.chain, TallyAll(xs));
      }
  }

  /** A counted score is normalized by group g exactly when its grade is one of those given to g. */
  ghost predicate NormalizedBy(scores: seq<Score>, a: Assignment, g: Group) {
    forall s | s in scores && s.Counted() :: (s.cstats == g || s.sstats == g) ==> Chosen(a, s.cstats, s.sstats) == g
  }

  /** Normalizes one raw score, if it is counted and belongs to group g. */
  method NormalizeScore(scp: Score, a: Assignment, g: Group, ghost xs: seq<real>) returns (ys: seq<real>)
    requires TabledAndRanked(g, xs)
    requires scp.Counted() && (scp.cstats == g || scp.sstats == g) ==> Chosen(a, scp.cstats, scp.sstats) == g
    modifies g`stddev, a`max
    ensures TabledAndRanked(g, xs) && BasisOf(a, g, xs) == old(BasisOf(a, g, xs))
    ensures ys == if scp.Counted() && (scp.cstats == g || scp.sstats == g)
                  then [old(BasisOf(a, g, xs)).Normal(scp.grade)] else []
  {
    hide TabledAndRanked, BasisOf;
    ys := [];
    if scp.Counted() && (scp.cstats == g || scp.sstats == g) {
      var y := Normal(scp.grade, scp.cstats, scp.sstats, a, xs);
      ys := [y];
    }
  }

  lemma NormalAllOfNext(b: Basis, scores: seq<Score>, scp: Score, g: Group)
    requires b.rd >= EPSILON && b.max >= EPSILON && b.n > 0
    ensures b.NormalAll(Grades(scores + [scp], g)) == b.NormalAll(Grades(scores, g))
              + (if scp.Counted() && (scp.cstats == g || scp.sstats == g) then [b.Normal(scp.grade)] else [])
  {
    GradesOfNext(scores, scp, g);
    b.NormalAllNext(Grades(scores, g), scp.grade);
    assert Grades(scores, g) + [] == Grades(scores, g);
  }

  /** Normalizes, one after the other, the counted scores that belong to a group. */
  method NormalizeGroup(scores: seq<Score>, a: Assignment, g: Group) returns (ys: seq<real>)
    requires TabledAndRanked(g, Grades(scores, g)) && NormalizedBy(scores, a, g)
    modifies g`stddev, a`max
    ensures ys == old(BasisOf(a, g, Grades(scores, g))).NormalAll(Grades(scores, g))
  {
    ghost var xs := Grades(scores, g);
    ghost var basis := BasisOf(a, g, xs);
    assert scores[..0] == [] && basis.NormalAll(Grades([], g)) == [];
    assert forall i | 0 <= i < |scores| :: scores[i] in scores;
    hide TabledAndRanked, BasisOf, Grades, Chosen;
    ys := [];
    for i := 0 to |scores|
      invariant TabledAndRanked(g, xs) && BasisOf(a, g, xs) == basis
      invariant ys == basis.NormalAll(Grades(scores[..i], g))
    {
      assert scores[..i + 1] == scores[..i] + [scores[i]];
      NormalAllOfNext(basis, scores[..i], scores[i], g);
      var y := NormalizeScore(scores[i], a, g, xs);
      ys := ys + y;
    }
    assert scores[..|scores|] == scores;
  }

  lemma {:induction false} LinearNormals(b: Basis, xs: seq<real>)
    requires b.rd >= EPSILON && b.max >= EPSILON && b.n > 0 && b.policy == LinearPolicy
    ensures b.NormalAll(xs) == LinearAll(xs, b.rm, b.rd, b.nm, b.nd)
  {
    if xs != [] {
      LinearNormals(b, xs[..|xs| - 1]);
    }
  }

  lemma {:induction false} NormalsAt(b: Basis, xs: seq<real>, i: nat)
    requires b.rd >= EPSILON && b.max >= EPSILON && b.n > 0 && i < |xs|
    ensures b.NormalAll(xs)[i] == b.Normal(xs[i])
  {
    if i < |xs| - 1 {
      NormalsAt(b, xs[..|xs| - 1], i);
    }
  }

  lemma LinearTimes(s: real, rm: real, rd: real, nm: real, nd: real)
    requires rd != 0.0
    ensures (Linear(s, rm, rd, nm, nd) - nm) * rd == nd * (s - rm)
  {
    var x := nd * (s - rm);
    var q := x / rd;
    assert q * rd == x;
  }

  lemma ScaledTimes(s: real, max: real, scale: real)
    requires max != 0.0
    ensures Scaled(s, max, scale) * max == s * scale
    ensures s == max ==> Scaled(s, max, scale) == scale
  {
    var x := s * scale;
    assert (x / max) * max == x;
    QuotientIs(max * scale, scale, max);
  }

  /** What a deviation or a maximum that is too small to divide by is replaced with. */
  lemma DivisorIs(x: real)
    ensures x >= EPSILON ==> Divisor(x) == x
    ensures x < EPSILON ==> Divisor(x) == 0.000002
  {
  }

  /** Under RAW normalization the scores of a group stay as they are. */
  lemma RawGroup(a: Assignment, g: Group, xs: seq<real>)
    requires a.npolicy == RawPolicy
    ensures BasisOf(a, g, xs).NormalAll(xs) == xs
  {
    var b := BasisOf(a, g, xs);
    forall k | 0 <= k < |xs| ensures b.NormalAll(xs)[k] == xs[k] {
      NormalsAt(b, xs, k);
    }
  }

  lemma NormalsScaled(a: Assignment, g: Group, xs: seq<real>, i: nat)
    requires i < |xs|
    ensures var y := BasisOf(a, g, xs).NormalAll(xs)[i];
      && (a.npolicy == ScalePolicy ==> y == Scaled(xs[i], Divisor(a.max), a.scale))
      && (a.npolicy == LinearPolicy ==> y == Linear(xs[i], g.mean, Divisor(g.stddev), a.mean, a.stddev))
  {
    NormalsAt(BasisOf(a, g, xs), xs, i);
    hide Scaled, Linear, TallyAll, Quantile, Divisor;
  }

  lemma ScaledCases(y: real, s: real, max: real, scale: real)
    requires y == Scaled(s, Divisor(max), scale)
    ensures max >= EPSILON ==> y * max == s * scale && (s == max ==> y == scale)
    ensures max < EPSILON ==> y * 0.000002 == s * scale
  {
    ScaledTimes(s, Divisor(max), scale);
    hide Scaled;
  }

  lemma LinearCases(y: real, s: real, rm: real, rd: real, nm: real, nd: real)
    requires y == Linear(s, rm, Divisor(rd), nm, nd)
    ensures rd >= EPSILON ==> (y - nm) * rd == nd * (s - rm)
    ensures rd < EPSILON ==> (y - nm) * 0.000002 == nd * (s - rm)
  {
    LinearTimes(s, rm, Divisor(rd), nm, nd);
    hide Linear;
  }

  /** Under SCALE they become proportional to what they were, and the declared maximum, unless that is replaced,
      becomes the scale. */
  lemma ScaleGroup(a: Assignment, g: Group, xs: seq<real>, i: nat)
    requires a.npolicy == ScalePolicy && i < |xs|
    ensures var y := BasisOf(a, g, xs).NormalAll(xs)[i];
      && (a.max >= EPSILON ==> y * a.max == xs[i] * a.scale && (xs[i] == a.max ==> y == a.scale))
      && (a.max < EPSILON ==> y * 0.000002 == xs[i] * a.scale)
  {
    hide *;
    NormalsScaled(a, g, xs, i);
    ScaledCases(BasisOf(a, g, xs).NormalAll(xs)[i], xs[i], a.max, a.scale);
  }

  /** Under LINEAR their distances from the mean become proportional, and keep their sign if the deviation asked for
      is positive. */
  lemma LinearGroupAt(a: Assignment, g: Group, xs: seq<real>, i: nat)
    requires a.npolicy == LinearPolicy && i < |xs|
    ensures var y := BasisOf(a, g, xs).NormalAll(xs)[i];
      && (g.stddev >= EPSILON ==> (y - a.mean) * g.stddev == a.stddev * (xs[i] - g.mean))
      && (g.stddev < EPSILON ==> (y - a.mean) * 0.000002 == a.stddev * (xs[i] - g.mean))
  {
    hide *;
    NormalsScaled(a, g, xs, i);
    LinearCases(BasisOf(a, g, xs).NormalAll(xs)[i], xs[i], g.mean, g.stddev, a.mean, a.stddev);
  }

  /** Under LINEAR normalization, the scores of a group come out with exactly the mean the assignment asks for.
      With two scores or more they have exactly the deviation it asks for as well, if and only if the deviation
      of the raw scores is not too small to divide by, or the assignment asks for none. */
  lemma LinearGroup(a: Assignment, g: Group, xs: seq<real>, sqrt: Root)
    requires a.npolicy == LinearPolicy && SummedWithMoments(g, xs, sqrt) && xs != []
    requires |xs| >= 2 ==> sqrt(Variance(xs)) >= 0.0 && Square(sqrt(Variance(xs))) == Variance(xs)
    ensures var ys := BasisOf(a, g, xs).NormalAll(xs);
      && Mean(ys) == a.mean
      && (|xs| >= 2 ==> (Variance(ys) == Square(a.stddev) <==> (g.stddev >= EPSILON || a.stddev == 0.0)))
  {
    LinearNormals(BasisOf(a, g, xs), xs);
    hide TallyAll, Sum, SumSquares, LinearAll, Residual, Square;
    assert g.mean == Mean(xs);
    LinearMean(xs, g.stddev, a.mean, a.stddev);
    if |xs| >= 2 {
      assert g.stddev == sqrt(Variance(xs));
      LinearNormalization(xs, g.stddev, a.mean, a.stddev);
    }
  }

  /** Under QUANTILE normalization, a score of a group becomes the percentage of the group below it, which is
      at least 0 and less than 100. */
  lemma QuantileGroup(a: Assignment, g: Group, xs: seq<real>)
    requires a.npolicy == QuantilePolicy && TabledAndRanked(g, xs)
    ensures var ys := BasisOf(a, g, xs).NormalAll(xs);
      forall i | 0 <= i < |xs| :: ys[i] == PercentBelow(xs, xs[i]) && 0.0 <= ys[i] < 100.0
  {
    var b := BasisOf(a, g, xs);
    forall i | 0 <= i < |xs| ensures
      b.NormalAll(xs)[i] == PercentBelow(xs, xs[i]) && 0.0 <= b.NormalAll(xs)[i] < 100.0
    {
      NormalsAt(b, xs, i);
      TalliedQuantileRange(xs, xs[i]);
    }
  }

  /** Once everything is linked, the scores normalized by the class, or by a section, are those given to it. */
  lemma PlacedIsNormalizedBy(zs: seq<Score>, s: seq<AsgtStats>, i: nat, a: Assignment, g: Group)
    requires AllInPlace(zs, s) && Separated(s) && i < |s|
    requires if a.ngroup == ByClass then g == s[i].cstats else g in s[i].sstats
    ensures NormalizedBy(zs, a, g)
  {
    forall z | z in zs && (z.cstats == g || z.sstats == g) ensures Chosen(a, z.cstats, z.sstats) == g {
      PlaceIsAssignment(z, s, i);
    }
  }

  /** Normalizes the counted scores of an assignment by the class, grade by grade as BasisOf says. What comes out of
      LINEAR has exactly the mean that is asked for; and exactly the deviation, if and only if that of the raw scores
      was not replaced, or none is asked for. What comes out of QUANTILE is the percentage below each grade. */
  method NormalizeClass(zs: seq<Score>, s: seq<AsgtStats>, i: nat, a: Assignment, ghost sqrt: Root)
    returns (ys: seq<real>)
    requires AllInPlace(zs, s) && Separated(s) && i < |s| && RecordRight(s, zs, i, sqrt) && a.ngroup == ByClass
    requires forall v: real | v >= 0.0 :: sqrt(v) >= 0.0 && Square(sqrt(v)) == v
    modifies s[i].cstats`stddev, a`max
    ensures |ys| == |GradesFor(zs, i)|
    ensures ys == old(BasisOf(a, s[i].cstats, GradesFor(zs, i)).NormalAll(GradesFor(zs, i)))
    ensures a.npolicy == LinearPolicy && ys != [] ==> Mean(ys) == a.mean
    ensures a.npolicy == LinearPolicy && |ys| >= 2 ==>
        (Variance(ys) == Square(a.stddev) <==> (old(s[i].cstats.stddev) >= EPSILON || a.stddev == 0.0))
    ensures a.npolicy == QuantilePolicy ==> forall j | 0 <= j < |ys| ::
        var xs := GradesFor(zs, i); ys[j] == PercentBelow(xs, xs[j]) && 0.0 <= ys[j] < 100.0
  {
    var g := s[i].cstats;
    ghost var xs := GradesFor(zs, i);
    ghost var basis := BasisOf(a, g, xs);
    RecordsHoldAssignments(zs, s, i);
    PlacedIsNormalizedBy(zs, s, i, a, g);
    if a.npolicy == LinearPolicy && xs != [] {
      if |xs| >= 2 {
        VarianceIsPositive(xs);
      }
      LinearGroup(a, g, xs, sqrt);
    }
    if a.npolicy == QuantilePolicy {
      QuantileGroup(a, g, xs);
    }
    hide Grades, TabledAndRanked, BasisOf, NormalizedBy, AllInPlace, GradesFor;
    ys := NormalizeGroup(zs, a, g);
  }
}
