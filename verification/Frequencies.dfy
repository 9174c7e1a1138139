/** Frequency tables of scores, and the quantiles read off them (grades/src/stats.c, grades/src/normal.c).
    Grades are exact reals. */
module Frequencies {

  /** A bucket as a value: a score and how often it occurs. */
  datatype Bucket = Bucket(score: real, count: nat)

  // ---------------------------------------------------------------------------------------------
  // Tallies as values
  // ---------------------------------------------------------------------------------------------

  /** One more score: in its bucket, or in a new bucket where it belongs. */
  function Tally(bs: seq<Bucket>, g: real): seq<Bucket> {
    if bs == [] then [Bucket(g, 1)]
    else if bs[0].score == g then [Bucket(g, bs[0].count + 1)] + bs[1..]
    else if bs[0].score > g then [Bucket(g, 1)] + bs
    else [bs[0]] + Tally(bs[1..], g)
  }

  function TallyAll(xs: seq<real>): seq<Bucket> {
    if xs == [] then [] else Tally(TallyAll(xs[..|xs| - 1]), xs[|xs| - 1])
  }

  /** Strictly increasing scores, each occurring. */
  ghost predicate Table(bs: seq<Bucket>) {
    && (forall i, j | 0 <= i < j < |bs| :: bs[i].score < bs[j].score)
    && (forall i | 0 <= i < |bs| :: bs[i].count > 0)
  }

  /** The scores in a table, with their multiplicities. */
  ghost function Contents(bs: seq<Bucket>): multiset<real> {
    if bs == [] then multiset{} else multiset{}[bs[0].score := bs[0].count] + Contents(bs[1..])
  }

  lemma {:induction false} TallyKeepsTable(bs: seq<Bucket>, g: real)
    requires Table(bs)
    ensures Table(Tally(bs, g))
    ensures Tally(bs, g)[0].score == if bs != [] && bs[0].score < g then bs[0].score else g
  {
    if bs != [] && bs[0].score < g {
      TallyKeepsTable(bs[1..], g);
      var t := Tally(bs[1..], g);
      forall j | 0 <= j < |t| ensures bs[0].score < t[j].score {
        assert t[0].score <= t[j].score;
      }
    }
  }

  lemma {:induction false} TallyAddsOne(bs: seq<Bucket>, g: real)
    ensures Contents(Tally(bs, g)) == Contents(bs) + multiset{g}
  {
    if bs == [] {
      assert Tally(bs, g)[1..] == [];
    } else if bs[0].score == g {
      assert Tally(bs, g)[1..] == bs[1..];
    } else if bs[0].score > g {
      assert Tally(bs, g)[1..] == bs;
    } else {
      TallyAddsOne(bs[1..], g);
      assert Tally(bs, g)[1..] == Tally(bs[1..], g);
    }
  }

  /** Tallying any scores in any order gives a strictly increasing table of exactly those scores. */
  lemma {:induction false} TallyAllContents(xs: seq<real>)
    ensures Table(TallyAll(xs)) && Contents(TallyAll(xs)) == multiset(xs)
  {
    if xs != [] {
      var front, g := xs[..|xs| - 1], xs[|xs| - 1];
      hide Table, Contents, Tally;
      TallyAllContents(front);
      TallyKeepsTable(TallyAll(front), g);
      TallyAddsOne(TallyAll(front), g);
      assert xs == front + [g];
    }
  }

  lemma {:induction false} AboveAll(bs: seq<Bucket>, g: real)
    requires forall i | 0 <= i < |bs| :: g < bs[i].score
    ensures g !in Contents(bs)
  {
    if bs != [] {
      AboveAll(bs[1..], g);
    }
  }

  lemma HeadOfContents(bs: seq<Bucket>)
    requires Table(bs) && bs != []
    ensures Contents(bs)[bs[0].score] == bs[0].count > 0
    ensures Contents(bs[1..]) == Contents(bs)[bs[0].score := 0]
    ensures forall s | s < bs[0].score :: s !in Contents(bs)
  {
    AboveAll(bs[1..], bs[0].score);
    forall s | s < bs[0].score ensures s !in Contents(bs) {
      AboveAll(bs, s);
    }
  }

  /** A table is determined by its contents: the order in which scores were tallied leaves no trace. */
  lemma {:induction false} TableIsUnique(bs: seq<Bucket>, cs: seq<Bucket>)
    requires Table(bs) && Table(cs) && Contents(bs) == Contents(cs)
    ensures bs == cs
  {
    if bs == [] {
      if cs != [] { HeadOfContents(cs); }
    } else {
      HeadOfContents(bs);
      if cs != [] {
        HeadOfContents(cs);
        assert bs[0] == cs[0];
        TableIsUnique(bs[1..], cs[1..]);
        assert bs == [bs[0]] + bs[1..] && cs == [cs[0]] + cs[1..];
      }
    }
  }

  // ---------------------------------------------------------------------------------------------
  // Counting below a score
  // ---------------------------------------------------------------------------------------------

  /** How many scores the first k buckets count. */
  function Rank(bs: seq<Bucket>, k: nat): nat
    requires k <= |bs|
  {
    if k == 0 then 0 else Rank(bs, k - 1) + bs[k - 1].count
  }

  lemma {:induction false} RankFromFront(bs: seq<Bucket>, k: nat)
    requires 0 < k <= |bs|
    ensures Rank(bs, k) == bs[0].count + Rank(bs[1..], k - 1)
  {
    if k > 1 {
      RankFromFront(bs, k - 1);
    }
  }

  /** How many of the scores are below s. */
  function Below(xs: seq<real>, s: real): nat {
    if xs == [] then 0 else Below(xs[..|xs| - 1], s) + (if xs[|xs| - 1] < s then 1 else 0)
  }

  function BelowIn(bs: seq<Bucket>, s: real): nat {
    if bs == [] then 0 else (if bs[0].score < s then bs[0].count else 0) + BelowIn(bs[1..], s)
  }

  lemma {:induction false} BelowTally(bs: seq<Bucket>, g: real, s: real)
    ensures BelowIn(Tally(bs, g), s) == BelowIn(bs, s) + (if g < s then 1 else 0)
  {
    var t := Tally(bs, g);
    if bs == [] {
      assert t[1..] == [];
    } else if bs[0].score == g {
      assert t[1..] == bs[1..];
    } else if bs[0].score > g {
      assert t[1..] == bs;
    } else {
      BelowTally(bs[1..], g, s);
      assert t[1..] == Tally(bs[1..], g);
    }
  }

  lemma {:induction false} BelowTallyAll(xs: seq<real>, s: real)
    ensures BelowIn(TallyAll(xs), s) == Below(xs, s)
  {
    if xs != [] {
      BelowTallyAll(xs[..|xs| - 1], s);
      BelowTally(TallyAll(xs[..|xs| - 1]), xs[|xs| - 1], s);
    }
  }

  lemma {:induction false} NoneBelow(bs: seq<Bucket>, s: real)
    requires forall i | 0 <= i < |bs| :: bs[i].score >= s
    ensures BelowIn(bs, s) == 0
  {
    if bs != [] {
      NoneBelow(bs[1..], s);
    }
  }

  /** The counts before bucket k are the scores below s, for any s above bucket k - 1 and not above bucket k. */
  lemma {:induction false} RankIsBelow(bs: seq<Bucket>, k: nat, s: real)
    requires k <= |bs|
    requires forall i | 0 <= i < k :: bs[i].score < s
    requires forall i | k <= i < |bs| :: bs[i].score >= s
    ensures Rank(bs, k) == BelowIn(bs, s)
  {
    if k == 0 {
      NoneBelow(bs, s);
    } else {
      RankFromFront(bs, k);
      RankIsBelow(bs[1..], k - 1, s);
    }
  }

  lemma {:induction false} RankOfTally(bs: seq<Bucket>, g: real)
    ensures Rank(Tally(bs, g), |Tally(bs, g)|) == Rank(bs, |bs|) + 1
  {
    var t := Tally(bs, g);
    RankFromFront(t, |t|);
    if bs == [] {
    } else {
      RankFromFront(bs, |bs|);
      if bs[0].score == g {
        assert t[1..] == bs[1..];
      } else if bs[0].score > g {
        assert t[1..] == bs;
      } else {
        RankOfTally(bs[1..], g);
        assert t[1..] == Tally(bs[1..], g);
      }
    }
  }

  /** The counts of a table add up to the number of scores tallied. */
  lemma {:induction false} RankOfTallyAll(xs: seq<real>)
    ensures Rank(TallyAll(xs), |TallyAll(xs)|) == |xs|
  {
    if xs != [] {
      RankOfTallyAll(xs[..|xs| - 1]);
      RankOfTally(TallyAll(xs[..|xs| - 1]), xs[|xs| - 1]);
    }
  }
}
