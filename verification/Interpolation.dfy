/** Reading scores off quantiles for the summary report (grades/src/report.c 76-163). */
module Interpolation {

  import opened Frequencies
  import Moments
  import opened ScoreTables

  /** The percentage of the n scores that lie below bucket k. */
  function Percent(bs: seq<Bucket>, k: nat, n: int): real
    requires k <= |bs| && n > 0
  {
    Rank(bs, k) as real * 100.0 / n as real
  }

  function Line(pq: real, ps: real, nq: real, ns: real, q: real): real
    requires nq != pq
  {
    ps + (ns - ps) / (nq - pq) * (q - pq)
  }

  /** The search from bucket k on, with the quantile and score of the bucket before it. */
  function From(bs: seq<Bucket>, k: nat, pq: real, ps: real, n: int, q: real): real
    requires k < |bs| && n > 0
    decreases |bs| - k
  {
    if k == |bs| - 1 then bs[k].score
    else if pq <= q < Percent(bs, k, n) then Line(pq, ps, Percent(bs, k, n), bs[k].score, q)
    else From(bs, k + 1, Percent(bs, k, n), bs[k].score, n, q)
  }

  /** The score that stands at quantile q in a table of n scores. */
  function Interpolated(bs: seq<Bucket>, n: int, q: real): real
    requires bs != [] ==> n > 0
  {
    if bs == [] then 0.0 else From(bs, 0, 0.0, bs[0].score, n, q)
  }

  method InterpolateQuantile(freqs: Freqs?, n: nat, q: real, ghost chain: seq<Freqs>, ghost bs: seq<Bucket>)
    returns (s: real)
    requires IsList(freqs, chain) && Shows(chain, bs) && Ranked(chain, bs)
    requires freqs != null ==> n > 0
    ensures s == Interpolated(bs, n, q)
    ensures freqs == null ==> s == 0.0
  {
    hide Rank, Table;
    var fp := freqs;
    if fp == null {
      return 0.0;
    }
    var pq, nq := 0.0, 0.0;
    var ps, ns := fp.score, fp.score;
    ghost var k := 0;
    assert Next(chain[0]) == After(chain, 0);
    while fp != null && fp.next != null
      invariant k < |chain| && fp == chain[k]
      invariant Next(fp) == After(chain, k)
      invariant Interpolated(bs, n, q) == From(bs, k, pq, ps, n, q)
      decreases |chain| - k
    {
      nq := fp.numless as real * 100.0 / n as real;
      ns := fp.score;
      assert nq == Percent(bs, k, n);
      if pq <= q < nq {
        break;
      }
      pq := nq;
      ps := ns;
      fp := fp.next;
      k := k + 1;
      assert Next(chain[k]) == After(chain, k);
    }
    if fp.next == null {
      return fp.score;
    }
    var qdiff := nq - pq;
    var sdiff := ns - ps;
    if qdiff == 0.0 {
      return ps;
    } else {
      return ps + sdiff / qdiff * (q - pq);
    }
  }

  // ---------------------------------------------------------------------------------------------
  // Order
  // ---------------------------------------------------------------------------------------------

  lemma LineIsBetween(pq: real, ps: real, nq: real, ns: real, q: real)
    requires pq <= q <= nq && pq < nq && ps <= ns
    ensures ps <= Line(pq, ps, nq, ns, q) <= ns
    ensures q == pq ==> Line(pq, ps, nq, ns, q) == ps
  {
    LineIsMonotone(pq, ps, nq, ns, pq, q);
    LineIsMonotone(pq, ps, nq, ns, q, nq);
    var d := nq - pq;
    var m := (ns - ps) / d;
    assert m * d == ns - ps;
    assert m * 0.0 == 0.0;
  }

  lemma LineIsMonotone(pq: real, ps: real, nq: real, ns: real, q: real, r: real)
    requires pq < nq && ps <= ns && q <= r
    ensures Line(pq, ps, nq, ns, q) <= Line(pq, ps, nq, ns, r)
  {
    var d := nq - pq;
    var m := (ns - ps) / d;
    assert m * d == ns - ps;
    assert m >= 0.0;
    assert m * (r - pq) - m * (q - pq) == m * (r - q);
    assert m * (r - q) >= 0.0;
  }

  /** From a bucket on, the search never falls below the score before it nor rises above the last score. */
  lemma {:induction false} FromIsBetween(bs: seq<Bucket>, k: nat, pq: real, ps: real, n: int, q: real)
    requires Table(bs) && k < |bs| && n > 0 && pq <= q && ps <= bs[k].score
    ensures ps <= From(bs, k, pq, ps, n, q) <= bs[|bs| - 1].score
    decreases |bs| - k
  {
    if k < |bs| - 1 {
      var nq := Percent(bs, k, n);
      if q < nq {
        LineIsBetween(pq, ps, nq, bs[k].score, q);
      } else {
        FromIsBetween(bs, k + 1, nq, bs[k].score, n, q);
      }
    }
  }

  lemma {:induction false} FromIsMonotone(bs: seq<Bucket>, k: nat, pq: real, ps: real, n: int, q: real, r: real)
    requires Table(bs) && k < |bs| && n > 0 && pq <= q <= r && ps <= bs[k].score
    ensures From(bs, k, pq, ps, n, q) <= From(bs, k, pq, ps, n, r)
    decreases |bs| - k
  {
    if k < |bs| - 1 {
      var nq, ns := Percent(bs, k, n), bs[k].score;
      if r < nq {
        LineIsMonotone(pq, ps, nq, ns, q, r);
      } else if q < nq {
        LineIsBetween(pq, ps, nq, ns, q);
        FromIsBetween(bs, k + 1, nq, ns, n, r);
      } else {
        FromIsMonotone(bs, k + 1, nq, ns, n, q, r);
      }
    }
  }

  lemma {:induction false} FromNegative(bs: seq<Bucket>, k: nat, pq: real, ps: real, n: int, q: real)
    requires k < |bs| && n > 0 && q < 0.0 <= pq
    ensures From(bs, k, pq, ps, n, q) == bs[|bs| - 1].score
    decreases |bs| - k
  {
    if k < |bs| - 1 {
      assert Percent(bs, k, n) >= 0.0;
      FromNegative(bs, k + 1, Percent(bs, k, n), bs[k].score, n, q);
    }
  }

  /** Interpolated scores lie between the first and the last bucket and do not fall as the quantile rises; for a
      negative quantile the last score comes back. */
  lemma InterpolatedIsMonotone(bs: seq<Bucket>, n: int, q: real, r: real)
    requires Table(bs) && bs != [] && n > 0 && q <= r
    ensures bs[0].score <= Interpolated(bs, n, q) <= bs[|bs| - 1].score
    ensures q >= 0.0 ==> Interpolated(bs, n, q) <= Interpolated(bs, n, r)
    ensures q < 0.0 ==> Interpolated(bs, n, q) == bs[|bs| - 1].score
  {
    if q < 0.0 {
      FromNegative(bs, 0, 0.0, bs[0].score, n, q);
    } else {
      FromIsBetween(bs, 0, 0.0, bs[0].score, n, q);
      FromIsMonotone(bs, 0, 0.0, bs[0].score, n, q, r);
    }
  }

  // ---------------------------------------------------------------------------------------------
  // Interpolation against look-up
  // ---------------------------------------------------------------------------------------------

  lemma {:induction false} PercentIsMonotone(bs: seq<Bucket>, i: nat, j: nat, n: int)
    requires Table(bs) && i <= j <= |bs| && n > 0
    ensures Percent(bs, i, n) <= Percent(bs, j, n)
    ensures i < j ==> Percent(bs, i, n) < Percent(bs, j, n)
    decreases j
  {
    if i < j {
      PercentIsMonotone(bs, i, j - 1, n);
      PercentOrder(Rank(bs, j - 1) as real, Rank(bs, j) as real, n as real);
    }
  }

  /** At the quantile of bucket j the search arrives at its score, but for the last bucket but one. */
  lemma {:induction false} FromAt(bs: seq<Bucket>, k: nat, pq: real, ps: real, n: int, j: nat)
    requires Table(bs) && k <= j < |bs| && n > 0
    ensures From(bs, k, pq, ps, n, Percent(bs, j, n)) == if j == |bs| - 2 then bs[j + 1].score else bs[j].score
    decreases j - k
  {
    PercentIsMonotone(bs, k, j, n);
    if k < j {
      FromAt(bs, k + 1, Percent(bs, k, n), bs[k].score, n, j);
    } else if j < |bs| - 2 {
      PercentIsMonotone(bs, j, j + 1, n);
      LineIsBetween(Percent(bs, j, n), bs[j].score, Percent(bs, j + 1, n), bs[j + 1].score, Percent(bs, j, n));
    }
  }

  /** From the quantile of bucket j on, the search gets past it. */
  lemma {:induction false} FromGetsPast(bs: seq<Bucket>, k: nat, pq: real, ps: real, n: int, q: real, j: nat)
    requires Table(bs) && k <= j < |bs| - 1 && n > 0 && Percent(bs, j, n) <= q
    ensures From(bs, k, pq, ps, n, q) == From(bs, j + 1, Percent(bs, j, n), bs[j].score, n, q)
    decreases j - k
  {
    PercentIsMonotone(bs, k, j, n);
    if k < j {
      FromGetsPast(bs, k + 1, Percent(bs, k, n), bs[k].score, n, q, j);
    }
  }

  lemma LineIsLinear(pq: real, ps: real, nq: real, ns: real, q: real)
    requires nq != pq
    ensures (Line(pq, ps, nq, ns, q) - ps) * (nq - pq) == (ns - ps) * (q - pq)
  {
    var d, e := nq - pq, q - pq;
    var m := (ns - ps) / d;
    assert m * d == ns - ps;
    assert Line(pq, ps, nq, ns, q) - ps == m * e;
    Swap(m, e, d);
  }

  lemma Swap(a: real, b: real, c: real)
    ensures (a * b) * c == (a * c) * b
  {
  }

  lemma PercentLine(bs: seq<Bucket>, n: int, q: real, j: nat)
    requires Table(bs) && j < |bs| - 2 && n > 0 && Percent(bs, j, n) <= q < Percent(bs, j + 1, n)
    ensures var p, r := Percent(bs, j, n), Percent(bs, j + 1, n);
      (Interpolated(bs, n, q) - bs[j].score) * (r - p) == (bs[j + 1].score - bs[j].score) * (q - p)
  {
    hide Percent;
    FromGetsPast(bs, 0, 0.0, bs[0].score, n, q, j);
    LineIsLinear(Percent(bs, j, n), bs[j].score, Percent(bs, j + 1, n), bs[j + 1].score, q);
    hide Line;
  }

  /** Between the quantiles of two neighbouring buckets the score rises in proportion to the quantile, from that of
      the one to that of the other; from the quantile of the last bucket but one on it is the top score. */
  lemma InterpolatedIsLinear(bs: seq<Bucket>, n: int, q: real, j: nat)
    requires Table(bs) && j < |bs| - 1 && n > 0
    requires Rank(bs, j) as real * 100.0 / n as real <= q
    requires j < |bs| - 2 ==> q < Rank(bs, j + 1) as real * 100.0 / n as real
    ensures var p, r := Rank(bs, j) as real * 100.0 / n as real, Rank(bs, j + 1) as real * 100.0 / n as real;
      if j == |bs| - 2 then Interpolated(bs, n, q) == bs[j + 1].score
      else (Interpolated(bs, n, q) - bs[j].score) * (r - p) == (bs[j + 1].score - bs[j].score) * (q - p)
  {
    if j < |bs| - 2 {
      PercentLine(bs, n, q, j);
      hide Interpolated;
    } else {
      FromGetsPast(bs, 0, 0.0, bs[0].score, n, q, j);
    }
  }

  /** Interpolating at the percentage of the scores below a tallied score gives the score back, unless it is the
      last but one of the different scores: there the report jumps to the top score. */
  lemma InterpolationInvertsQuantile(xs: seq<real>, j: nat)
    requires j < |TallyAll(xs)|
    ensures var bs := TallyAll(xs);
      var s := bs[j].score;
      Interpolated(bs, |xs|, QuantileAmong(xs, s)) == s <==> j != |bs| - 2
  {
    var bs := TallyAll(xs);
    var s := bs[j].score;
    TallyAllContents(xs);
    BucketsHeld(xs, j);
    TalliedQuantileRange(xs, s);
    RanksCount(xs, j);
    FromAt(bs, 0, 0.0, bs[0].score, |xs|, j);
  }

  /** With two different scores, the quantile of the lower one interpolates to the upper one. */
  lemma InterpolationJumps()
    ensures var xs := [1.0, 2.0]; Interpolated(TallyAll(xs), 2, QuantileAmong(xs, 1.0)) == 2.0
  {
    var xs := [1.0, 2.0];
    assert xs[..1] == [1.0] && [1.0][..0] == [];
    assert TallyAll([1.0]) == [Bucket(1.0, 1)];
    assert [Bucket(1.0, 1)][1..] == [] && Tally([], 2.0) == [Bucket(2.0, 1)];
    assert TallyAll(xs) == [Bucket(1.0, 1), Bucket(2.0, 1)];
    TalliedQuantileRange(xs, 1.0);
    RanksCount(xs, 0);
    FromAt(TallyAll(xs), 0, 0.0, 1.0, 2, 0);
  }

  // ---------------------------------------------------------------------------------------------
  // The report
  // ---------------------------------------------------------------------------------------------

  const QUANTILES := [10.0, 25.0, 50.0, 75.0, 90.0]

  datatype Ratio = Ratio(value: real) | NoRatio

  /** Where s lies between min and max, if they differ. */
  function RatioOf(s: real, min: real, max: real): Ratio {
    if min < max then Ratio((s - min) / (max - min)) else NoRatio
  }

  /** The quantile summary of one table: the scores at the five quantiles, and where each lies between the first
      and the last of them. */
  method SummarizeQuantiles(freqs: Freqs?, n: nat, ghost chain: seq<Freqs>, ghost bs: seq<Bucket>)
    returns (scores: array<real>, ratios: seq<Ratio>)
    requires IsList(freqs, chain) && Shows(chain, bs) && Ranked(chain, bs)
    requires freqs != null ==> n > 0
    ensures scores[..] == [Interpolated(bs, n, 10.0), Interpolated(bs, n, 25.0), Interpolated(bs, n, 50.0),
                           Interpolated(bs, n, 75.0), Interpolated(bs, n, 90.0)]
    ensures |ratios| == 5 && forall i | 0 <= i < 5 :: ratios[i] == RatioOf(scores[i], scores[0], scores[4])
  {
    assert bs != [] ==> n > 0;
    hide Interpolated, IsList, Shows, Ranked;
    scores := new real[5];
    for i := 0 to 5
      invariant forall j | 0 <= j < i :: scores[j] == Interpolated(bs, n, QUANTILES[j])
    {
      scores[i] := InterpolateQuantile(freqs, n, QUANTILES[i], chain, bs);
    }
    var min, max := scores[0], scores[4];
    ratios := [];
    for i := 0 to 5
      invariant |ratios| == i
      invariant forall j | 0 <= j < i :: ratios[j] == RatioOf(scores[j], min, max)
    {
      if min < max {
        ratios := ratios + [Ratio((scores[i] - min) / (max - min))];
      } else {
        ratios := ratios + [NoRatio];
      }
    }
  }

  /** Every ratio of a summary is between 0 and 1, they do not fall, the first is 0 and the last is 1; and there
      are ratios exactly when the first and the last score differ. */
  lemma RatiosAreOrdered(bs: seq<Bucket>, n: nat, i: nat, j: nat)
    requires Table(bs) && (bs != [] ==> n > 0) && i <= j < |QUANTILES|
    ensures var min, max := Interpolated(bs, n, QUANTILES[0]), Interpolated(bs, n, QUANTILES[4]);
      var x, y := Interpolated(bs, n, QUANTILES[i]), Interpolated(bs, n, QUANTILES[j]);
      if min == max then RatioOf(x, min, max) == NoRatio
      else
        && RatioOf(x, min, max).Ratio? && RatioOf(y, min, max).Ratio?
        && 0.0 <= RatioOf(x, min, max).value <= RatioOf(y, min, max).value <= 1.0
        && RatioOf(x, min, max).value * (max - min) == x - min
        && RatioOf(min, min, max).value == 0.0 && RatioOf(max, min, max).value == 1.0
  {
    if bs != [] {
      InterpolatedIsMonotone(bs, n, QUANTILES[0], QUANTILES[i]);
      InterpolatedIsMonotone(bs, n, QUANTILES[i], QUANTILES[j]);
      InterpolatedIsMonotone(bs, n, QUANTILES[j], QUANTILES[4]);
      hide Interpolated;
      var min, max := Interpolated(bs, n, QUANTILES[0]), Interpolated(bs, n, QUANTILES[4]);
      var x, y := Interpolated(bs, n, QUANTILES[i]), Interpolated(bs, n, QUANTILES[j]);
      if min < max {
        RatioIsMonotone(min, x, min, max);
        RatioIsMonotone(x, y, min, max);
        RatioIsMonotone(y, max, min, max);
      }
    }
  }

  lemma RatioIsMonotone(s: real, t: real, min: real, max: real)
    requires min < max && s <= t
    ensures RatioOf(s, min, max).Ratio? && RatioOf(t, min, max).Ratio?
    ensures RatioOf(s, min, max).value <= RatioOf(t, min, max).value
    ensures s == min + RatioOf(s, min, max).value * (max - min)
    ensures RatioOf(min, min, max).value == 0.0 && RatioOf(max, min, max).value == 1.0
  {
    var d := max - min;
    var p, r := (s - min) / d, (t - min) / d;
    assert p * d == s - min && r * d == t - min;
    Moments.QuotientIs(d, 1.0, d);
    if r < p {
      assert r * d < p * d;
    }
  }
}
