/** Frequency tables as the linked lists the program keeps them in (grades/src/stats.c 136-230), and the
    quantile that normalization reads off such a list (grades/src/normal.c 125-161). */
module ScoreTables {

  import opened Frequencies

  class Freqs {
    var score: real
    var count: nat
    var numless: nat
    var numlesseq: nat
    var next: Freqs?

    constructor (score: real, next: Freqs?)
      ensures this.score == score && count == 1 && this.next == next
    {
      this.score := score;
      this.count := 1;
      this.next := next;
    }
  }

  function Next(f: Freqs): Freqs?
    reads f
  {
    f.next
  }

  /** The bucket that follows position i of a null-terminated list. */
  ghost function After(chain: seq<Freqs>, i: int): Freqs?
    requires -1 <= i < |chain|
  {
    if i + 1 < |chain| then chain[i + 1] else null
  }

  /** head leads to exactly the buckets of chain and then to NULL. */
  ghost predicate IsList(head: Freqs?, chain: seq<Freqs>)
    reads chain
  {
    && head == After(chain, -1)
    && (forall i {:trigger Next(chain[i])} | 0 <= i < |chain| :: Next(chain[i]) == After(chain, i))
  }

  lemma {:induction false} ListIsDistinct(head: Freqs?, chain: seq<Freqs>, i: int, j: int)
    requires IsList(head, chain)
    requires 0 <= i < j < |chain|
    ensures chain[i] != chain[j]
    decreases |chain| - j
  {
    assert Next(chain[i]) == chain[i + 1] && Next(chain[j]) == After(chain, j);
    if j + 1 < |chain| {
      ListIsDistinct(head, chain, i + 1, j + 1);
    }
  }

  /** The scores and counts of a list of buckets are those of bs. */
  ghost predicate Shows(chain: seq<Freqs>, bs: seq<Bucket>)
    reads chain
  {
    && |chain| == |bs|
    && (forall i | 0 <= i < |bs| :: chain[i].score == bs[i].score && chain[i].count == bs[i].count)
  }

  /** Tallying passes over the buckets below the score. */
  lemma {:induction false} TallySkips(bs: seq<Bucket>, k: nat, g: real)
    requires k <= |bs| && forall i | 0 <= i < k :: bs[i].score < g
    ensures Tally(bs, g) == bs[..k] + Tally(bs[k..], g)
  {
    if k > 0 {
      TallySkips(bs[1..], k - 1, g);
      assert bs[1..][..k - 1] == bs[1..k] && bs[1..][k - 1..] == bs[k..];
      assert bs[..k] == [bs[0]] + bs[1..k];
    } else {
      assert bs[k..] == bs;
    }
  }

  lemma TallyBumps(bs: seq<Bucket>, k: nat, g: real)
    requires k < |bs| && bs[k].score == g && forall i | 0 <= i < k :: bs[i].score < g
    ensures Tally(bs, g) == bs[k := Bucket(g, bs[k].count + 1)]
  {
    TallySkips(bs, k, g);
    assert bs[k..][1..] == bs[k + 1..];
  }

  lemma TallyInserts(bs: seq<Bucket>, k: nat, g: real)
    requires k <= |bs| && forall i | 0 <= i < k :: bs[i].score < g
    requires k < |bs| ==> bs[k].score > g
    ensures Tally(bs, g) == bs[..k] + [Bucket(g, 1)] + bs[k..]
  {
    TallySkips(bs, k, g);
  }

  /** Counts one score in a list of buckets, in place, and returns the head of the list. */
  method CountScore(g: real, afp: Freqs?, ghost chain: seq<Freqs>, ghost bs: seq<Bucket>)
    returns (head: Freqs, ghost now: seq<Freqs>)
    requires IsList(afp, chain) && Shows(chain, bs)
    modifies set f | f in chain
    ensures IsList(head, now) && Shows(now, Tally(bs, g))
    ensures forall f | f in now :: f in chain || fresh(f)
  {
    hide Tally;
    var fp, sfp: Freqs? := afp, null;
    ghost var k := 0;
    while fp != null
      invariant k <= |chain| && fp == After(chain, k - 1)
      invariant sfp == if k == 0 then null else chain[k - 1]
      invariant forall i | 0 <= i < k :: bs[i].score < g
      decreases |chain| - k
    {
      if fp.score == g {
        TallyBumps(bs, k, g);
        Bump(fp, afp, chain, bs, k);
        return afp, chain;
      } else if fp.score > g {
        TallyInserts(bs, k, g);
        head, now := Insert(g, afp, sfp, fp, chain, bs, k);
        return;
      }
      assert Next(chain[k]) == After(chain, k);
      sfp, fp := fp, fp.next;
      k := k + 1;
    }
    TallyInserts(bs, k, g);
    head, now := Insert(g, afp, sfp, fp, chain, bs, k);
  }

  /** One more in the bucket at position k. */
  method Bump(fp: Freqs, ghost afp: Freqs?, ghost chain: seq<Freqs>, ghost bs: seq<Bucket>, ghost k: nat)
    requires IsList(afp, chain) && Shows(chain, bs) && k < |chain| && fp == chain[k]
    modifies fp`count
    ensures IsList(afp, chain)
    ensures Shows(chain, bs[k := Bucket(fp.score, bs[k].count + 1)])
  {
    forall i | 0 <= i < |chain| && i != k ensures chain[i] != fp { Apart(afp, chain, i, k); }
    fp.count := fp.count + 1;
    assert forall i {:trigger Next(chain[i])} | 0 <= i < |chain| :: Next(chain[i]) == old(Next(chain[i]));
  }

  lemma Apart(head: Freqs?, chain: seq<Freqs>, i: int, j: int)
    requires IsList(head, chain) && 0 <= i < |chain| && 0 <= j < |chain| && i != j
    ensures chain[i] != chain[j]
  {
    if i < j { ListIsDistinct(head, chain, i, j); } else { ListIsDistinct(head, chain, j, i); }
  }

  /** A new bucket in front of fp, the bucket at position k, behind its predecessor sfp if there is one. */
  method Insert(g: real, afp: Freqs?, sfp: Freqs?, fp: Freqs?,
                ghost chain: seq<Freqs>, ghost bs: seq<Bucket>, ghost k: nat)
    returns (head: Freqs, ghost now: seq<Freqs>)
    requires IsList(afp, chain) && Shows(chain, bs) && k <= |chain|
    requires fp == After(chain, k - 1) && sfp == if k == 0 then null else chain[k - 1]
    modifies set f | f in chain
    ensures IsList(head, now) && Shows(now, bs[..k] + [Bucket(g, 1)] + bs[k..])
    ensures forall f | f in now :: f in chain || fresh(f)
  {
    var node := new Freqs(g, fp);
    now := chain[..k] + [node] + chain[k..];
    if sfp == null {
      head := node;
    } else {
      forall i | 0 <= i < |chain| && i != k - 1 ensures chain[i] != sfp { Apart(afp, chain, i, k - 1); }
      sfp.next := node;
      head := afp;
    }
    forall i | 0 <= i < |now| ensures Next(now[i]) == After(now, i) {
      if i < k {
        assert old(Next(chain[i])) == After(chain, i);
      } else if i > k {
        assert old(Next(chain[i - 1])) == After(chain, i - 1);
      }
    }
    ghost var t := bs[..k] + [Bucket(g, 1)] + bs[k..];
    forall i | 0 <= i < |now| ensures now[i].score == t[i].score && now[i].count == t[i].count {
      if i < k {
        assert now[i] == chain[i] && t[i] == bs[i];
      } else if i > k {
        assert now[i] == chain[i - 1] && t[i] == bs[i - 1];
      }
    }
  }

  // ---------------------------------------------------------------------------------------------
  // Quantiles
  // ---------------------------------------------------------------------------------------------

  /** The first k buckets know how many scores lie below them, and how many at or below them. */
  ghost predicate RankedUpTo(chain: seq<Freqs>, bs: seq<Bucket>, k: nat)
    reads chain
  {
    && k <= |chain| == |bs|
    && (forall i | 0 <= i < k :: chain[i].numless == Rank(bs, i) && chain[i].numlesseq == Rank(bs, i + 1))
  }

  ghost predicate Ranked(chain: seq<Freqs>, bs: seq<Bucket>)
    reads chain
  {
    RankedUpTo(chain, bs, |chain|)
  }

  method FillQuantiles(freqs: Freqs?, ghost chain: seq<Freqs>, ghost bs: seq<Bucket>)
    requires IsList(freqs, chain) && Shows(chain, bs)
    modifies (set f | f in chain)`numless, (set f | f in chain)`numlesseq
    ensures IsList(freqs, chain) && Shows(chain, bs) && Ranked(chain, bs)
  {
    var sum := 0;
    var fp := freqs;
    ghost var k := 0;
    assert fp == After(chain, -1) && sum == Rank(bs, 0) && RankedUpTo(chain, bs, 0);
    assert |chain| == |bs|;
    hide IsList, Shows, Rank, RankedUpTo;
    while fp != null
      invariant k <= |chain| && fp == After(chain, k - 1)
      invariant sum == Rank(bs, k)
      invariant IsList(freqs, chain) && Shows(chain, bs) && RankedUpTo(chain, bs, k)
      decreases |chain| - k
    {
      sum := RankOne(fp, sum, freqs, chain, bs, k);
      fp := fp.next;
      k := k + 1;
    }
  }

  /** One bucket is ranked; the sum so far moves past it. */
  method RankOne(fp: Freqs, sum: nat, ghost freqs: Freqs?, ghost chain: seq<Freqs>, ghost bs: seq<Bucket>, ghost k: nat)
    returns (next: nat)
    requires IsList(freqs, chain) && Shows(chain, bs)
    requires RankedUpTo(chain, bs, k) && k < |chain| && fp == chain[k] && sum == Rank(bs, k)
    modifies fp`numless, fp`numlesseq
    ensures IsList(freqs, chain) && Shows(chain, bs)
    ensures RankedUpTo(chain, bs, k + 1) && fp.next == After(chain, k) && next == Rank(bs, k + 1)
  {
    forall i | 0 <= i < k ensures chain[i] != fp { ListIsDistinct(freqs, chain, i, k); }
    assert Rank(bs, k + 1) == sum + fp.count;
    next := sum + fp.count;
    hide Rank;
    fp.numless := sum;
    fp.numlesseq := next;
    forall i | 0 <= i < |chain| ensures chain[i].score == bs[i].score && chain[i].count == bs[i].count {
      assert old(chain[i].score) == bs[i].score && old(chain[i].count) == bs[i].count;
    }
    forall i | 0 <= i < k ensures chain[i].numless == Rank(bs, i) && chain[i].numlesseq == Rank(bs, i + 1) {
      assert old(chain[i].numless) == Rank(bs, i) && old(chain[i].numlesseq) == Rank(bs, i + 1);
    }
    forall i | 0 <= i < |chain| ensures Next(chain[i]) == After(chain, i) {
      assert old(Next(chain[i])) == After(chain, i);
    }
    assert Next(chain[k]) == After(chain, k);
  }

  lemma {:induction false} CountInContents(bs: seq<Bucket>, i: nat)
    requires Table(bs) && i < |bs|
    ensures Contents(bs)[bs[i].score] == bs[i].count
  {
    HeadOfContents(bs);
    if i > 0 {
      CountInContents(bs[1..], i - 1);
    }
  }

  /** The two ranks of a bucket: the scores below its score, and those together with the scores equal to it. */
  lemma RanksCount(xs: seq<real>, i: nat)
    requires i < |TallyAll(xs)|
    ensures var bs := TallyAll(xs);
      && Rank(bs, i) == Below(xs, bs[i].score)
      && Rank(bs, i + 1) == Below(xs, bs[i].score) + multiset(xs)[bs[i].score]
  {
    var bs := TallyAll(xs);
    TallyAllContents(xs);
    RankIsBelow(bs, i, bs[i].score);
    BelowTallyAll(xs, bs[i].score);
    CountInContents(bs, i);
  }

  /** What normalization reads off a table of n scores: the percentage before the first bucket not below s,
      and 1 when s is above every bucket. */
  function Quantile(bs: seq<Bucket>, numless: nat, n: int, s: real): real
    requires n > 0
  {
    if bs == [] then 1.0
    else if s <= bs[0].score then numless as real * 100.0 / n as real
    else Quantile(bs[1..], numless + bs[0].count, n, s)
  }

  method LookUpQuantile(s: real, freqs: Freqs?, tallied: nat, ghost chain: seq<Freqs>, ghost bs: seq<Bucket>)
    returns (q: real)
    requires IsList(freqs, chain) && Shows(chain, bs) && Ranked(chain, bs)
    ensures q == Quantile(bs, 0, if tallied == 0 then 1 else tallied, s)
  {
    var fp, n := freqs, tallied;
    if n == 0 {
      n := 1;
    }
    ghost var k := 0;
    assert bs[0..] == bs;
    while fp != null
      invariant k <= |chain| && fp == After(chain, k - 1)
      invariant Quantile(bs, 0, n, s) == Quantile(bs[k..], Rank(bs, k), n, s)
      decreases |chain| - k
    {
      assert fp == chain[k] && fp.numless == Rank(bs, k);
      if s < fp.score {
        return fp.numless as real * 100.0 / n as real;
      } else if s == fp.score {
        return fp.numless as real * 100.0 / n as real;
      }
      assert Next(chain[k]) == After(chain, k);
      assert bs[k..][1..] == bs[k + 1..];
      fp := fp.next;
      k := k + 1;
    }
    return 1.0;
  }

  lemma PercentOrder(b: real, c: real, n: real)
    requires n > 0.0
    ensures b < c <==> b * 100.0 / n < c * 100.0 / n
    ensures n * 100.0 / n == 100.0
  {
    var p, q := b * 100.0 / n, c * 100.0 / n;
    assert p * n == b * 100.0 && q * n == c * 100.0;
    if p < q {
      assert p * n < q * n;
    } else {
      assert q * n <= p * n;
    }
  }

  /** For a score not above the top bucket, the look-up finds the percentage of scores below it. */
  lemma {:induction false} QuantileCountsBelow(bs: seq<Bucket>, numless: nat, n: int, s: real)
    requires Table(bs) && n > 0 && bs != [] && s <= bs[|bs| - 1].score
    ensures Quantile(bs, numless, n, s) == (numless + BelowIn(bs, s)) as real * 100.0 / n as real
  {
    if s <= bs[0].score {
      NoneBelow(bs, s);
    } else {
      QuantileCountsBelow(bs[1..], numless + bs[0].count, n, s);
    }
  }

  lemma {:induction false} QuantileAboveTop(bs: seq<Bucket>, numless: nat, n: int, s: real)
    requires n > 0 && forall i | 0 <= i < |bs| :: bs[i].score < s
    ensures Quantile(bs, numless, n, s) == 1.0
  {
    if bs != [] {
      QuantileAboveTop(bs[1..], numless + bs[0].count, n, s);
    }
  }

  lemma {:induction false} InContents(bs: seq<Bucket>, s: real)
    requires Table(bs) && s in Contents(bs)
    ensures exists i :: 0 <= i < |bs| && bs[i].score == s
  {
    if bs[0].score != s {
      InContents(bs[1..], s);
      var i :| 0 <= i < |bs[1..]| && bs[1..][i].score == s;
      assert bs[i + 1].score == s;
    }
  }

  lemma {:induction false} BucketInContents(bs: seq<Bucket>, i: nat)
    requires Table(bs) && i < |bs|
    ensures bs[i].score in Contents(bs)
  {
    if i > 0 {
      BucketInContents(bs[1..], i - 1);
    }
  }

  lemma BucketsHold(xs: seq<real>, x: real)
    requires x in xs
    ensures exists i :: 0 <= i < |TallyAll(xs)| && TallyAll(xs)[i].score == x
  {
    TallyAllContents(xs);
    assert x in multiset(xs);
    InContents(TallyAll(xs), x);
  }

  lemma BucketsHeld(xs: seq<real>, i: nat)
    requires i < |TallyAll(xs)|
    ensures TallyAll(xs)[i].score in xs
  {
    TallyAllContents(xs);
    BucketInContents(TallyAll(xs), i);
    assert TallyAll(xs)[i].score in multiset(xs);
  }

  /** The first bucket holds the least score, the last one the greatest. */
  lemma TableSpansScores(xs: seq<real>)
    requires xs != []
    ensures var bs := TallyAll(xs);
      && bs != [] && bs[0].score in xs && bs[|bs| - 1].score in xs
      && forall x | x in xs :: bs[0].score <= x <= bs[|bs| - 1].score
  {
    var bs := TallyAll(xs);
    TallyAllContents(xs);
    hide TallyAll, Contents;
    BucketsHold(xs, xs[0]);
    BucketsHeld(xs, 0);
    BucketsHeld(xs, |bs| - 1);
    forall x | x in xs ensures bs[0].score <= x <= bs[|bs| - 1].score {
      BucketsHold(xs, x);
    }
  }

  /** The percentage of the scores that are below s. */
  function PercentBelow(xs: seq<real>, s: real): real
    requires xs != []
  {
    Below(xs, s) as real * 100.0 / |xs| as real
  }

  /** The look-up in the table of the given scores. */
  function QuantileAmong(xs: seq<real>, s: real): real
    requires xs != []
  {
    Quantile(TallyAll(xs), 0, |xs|, s)
  }

  lemma QuantileWithin(xs: seq<real>, s: real, x: real)
    requires x in xs && s <= x
    ensures QuantileAmong(xs, s) == PercentBelow(xs, s)
  {
    hide TallyAll, Contents, Below, BelowIn, Rank, Quantile;
    TallyAllContents(xs);
    TableSpansScores(xs);
    BelowTallyAll(xs, s);
    QuantileCountsBelow(TallyAll(xs), 0, |xs|, s);
  }

  lemma QuantileBeyond(xs: seq<real>, s: real)
    requires xs != [] && forall x | x in xs :: x < s
    ensures QuantileAmong(xs, s) == 1.0 && PercentBelow(xs, s) == 100.0
  {
    hide TallyAll, Contents, Below, BelowIn, Rank;
    var bs := TallyAll(xs);
    TallyAllContents(xs);
    TableSpansScores(xs);
    assert forall i | 0 <= i < |bs| :: bs[i].score <= bs[|bs| - 1].score;
    BelowTallyAll(xs, s);
    QuantileAboveTop(bs, 0, |xs|, s);
    RankIsBelow(bs, |bs|, s);
    RankOfTallyAll(xs);
    PercentOrder(0.0, 0.0, |xs| as real);
  }

  /** For a non-empty class the look-up gives the percentage of the class below s, exactly when somebody
      scored at least s. Above the top score it gives 1, not 100. */
  lemma QuantileIsPercentage(xs: seq<real>, s: real)
    requires xs != []
    ensures (exists x :: x in xs && s <= x) <==> QuantileAmong(xs, s) == PercentBelow(xs, s)
    ensures (forall x | x in xs :: x < s) ==> QuantileAmong(xs, s) == 1.0
  {
    hide QuantileAmong, PercentBelow;
    if x :| x in xs && s <= x {
      QuantileWithin(xs, s, x);
    } else {
      QuantileBeyond(xs, s);
    }
  }

  /** In a class of one, who scored 50, the look-up of 60 gives 1 where all of the class is below. */
  lemma QuantileAboveTopFails()
    ensures QuantileAmong([50.0], 60.0) == 1.0 && PercentBelow([50.0], 60.0) == 100.0
  {
    QuantileBeyond([50.0], 60.0);
  }

  lemma {:induction false} BelowBounds(xs: seq<real>, s: real)
    ensures Below(xs, s) <= |xs|
    ensures s in xs ==> Below(xs, s) < |xs|
  {
    if xs != [] {
      BelowBounds(xs[..|xs| - 1], s);
      assert xs == xs[..|xs| - 1] + [xs[|xs| - 1]];
    }
  }

  /** A score that was tallied itself always has a quantile, of at least 0 and less than 100: the last return
      of the look-up is out of reach for it. */
  lemma TalliedQuantileRange(xs: seq<real>, s: real)
    requires s in xs
    ensures QuantileAmong(xs, s) == PercentBelow(xs, s)
    ensures 0.0 <= QuantileAmong(xs, s) < 100.0
  {
    QuantileWithin(xs, s, s);
    BelowBounds(xs, s);
    PercentOrder(Below(xs, s) as real, |xs| as real, |xs| as real);
    PercentOrder(Below(xs, s) as real, 0.0, |xs| as real);
  }

  lemma {:induction false} BelowMonotone(xs: seq<real>, s: real, t: real)
    requires s <= t
    ensures Below(xs, s) <= Below(xs, t)
    ensures s < t && s in xs ==> Below(xs, s) < Below(xs, t)
  {
    if xs != [] {
      BelowMonotone(xs[..|xs| - 1], s, t);
      assert xs == xs[..|xs| - 1] + [xs[|xs| - 1]];
    }
  }

  /** A score that was not tallied gets more than the percentage of any bucket below it, if there is one above. */
  lemma BetweenBuckets(xs: seq<real>, s: real, lower: real, upper: real)
    requires lower in xs && upper in xs && lower < s <= upper
    ensures QuantileAmong(xs, s) > PercentBelow(xs, lower)
  {
    QuantileWithin(xs, s, upper);
    BelowMonotone(xs, lower, s);
    PercentOrder(Below(xs, lower) as real, Below(xs, s) as real, |xs| as real);
  }

  /** So it never gets the percentage of the greatest tallied score below it, other than by the chance that this is
      the 1 that is returned above the top. */
  lemma LowerBucketIff(xs: seq<real>, s: real, lower: real)
    requires lower in xs && lower < s && s !in xs && forall x | x in xs && x < s :: x <= lower
    ensures QuantileAmong(xs, s) == PercentBelow(xs, lower)
       <==> (forall x | x in xs :: x < s) && PercentBelow(xs, lower) == 1.0
  {
    hide QuantileAmong, PercentBelow;
    if x :| x in xs && s <= x {
      BetweenBuckets(xs, s, lower, x);
    } else {
      QuantileBeyond(xs, s);
    }
  }

  /** With the scores 10 and 20, the look-up of 15 gives more than the percentage of 10. */
  lemma LowerBucketMissed()
    ensures QuantileAmong([10.0, 20.0], 15.0) != PercentBelow([10.0, 20.0], 10.0)
  {
    var xs := [10.0, 20.0];
    assert xs[0] == 10.0 && xs[1] == 20.0;
    hide *;
    BetweenBuckets(xs, 15.0, 10.0, 20.0);
  }

  /** Quantile scores rank the tallied scores as the raw scores do. */
  lemma QuantileKeepsOrder(xs: seq<real>, s: real, t: real)
    requires s in xs && t in xs
    ensures s < t <==> QuantileAmong(xs, s) < QuantileAmong(xs, t)
  {
    TalliedQuantileRange(xs, s);
    TalliedQuantileRange(xs, t);
    PercentOrder(Below(xs, s) as real, Below(xs, t) as real, |xs| as real);
    if s < t {
      BelowMonotone(xs, s, t);
    } else {
      BelowMonotone(xs, t, s);
    }
  }
}
