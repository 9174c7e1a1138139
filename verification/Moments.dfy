/** The moments of a set of scores, and what LINEAR normalization makes of them (grades/src/stats.c 242-323,
    grades/src/normal.c 98-109, 173-175). */
module Moments {

  const EPSILON := 0.000001

  // ---------------------------------------------------------------------------------------------
  // Arithmetic of reals
  // ---------------------------------------------------------------------------------------------

  lemma QuotientIs(a: real, b: real, c: real)
    requires c != 0.0 && a == b * c
    ensures a / c == b
  {
    var q := a / c;
    assert (q - b) * c == 0.0;
  }

  function Times(a: real, b: real): real {
    a * b
  }

  function Square(e: real): real {
    Times(e, e)
  }

  lemma ProductOfPositives(a: real, b: real)
    requires a > 0.0 && b > 0.0
    ensures Times(a, b) > 0.0
  {
  }

  lemma ProductOfNegatives(a: real, b: real)
    requires a < 0.0 && b < 0.0
    ensures Times(a, b) > 0.0
  {
  }

  lemma TimesCommutes(a: real, b: real)
    ensures Times(a, b) == Times(b, a)
  {
  }

  lemma TimesOrder(c: real, a: real, b: real)
    requires c > 0.0 && a < b
    ensures Times(c, a) < Times(c, b)
  {
  }

  lemma SquareOrder(a: real, b: real)
    requires 0.0 <= a < b
    ensures Square(a) < Square(b)
  {
    assert Times(0.0, 0.0) == 0.0;
    hide Times;
    if a == 0.0 {
      ProductOfPositives(b, b);
    } else {
      TimesOrder(a, a, b);
      TimesCommutes(a, b);
      TimesOrder(b, a, b);
    }
  }

  lemma SquareIsPositive(e: real)
    ensures Square(e) >= 0.0 && (Square(e) == 0.0 <==> e == 0.0)
  {
    assert Times(0.0, 0.0) == 0.0;
    hide Times;
    if e > 0.0 {
      ProductOfPositives(e, e);
    } else if e < 0.0 {
      ProductOfNegatives(e, e);
    }
  }

  lemma QuotientIsPositive(a: real, b: real)
    requires a >= 0.0 && b > 0.0
    ensures a / b >= 0.0
  {
    var q := a / b;
    assert q * b == a;
  }

  lemma ScaleOrder(c: real, a: real, b: real)
    requires c > 0.0 && a < b
    ensures c * a < c * b
  {
  }

  lemma Distributes(k: real, a: real, b: real)
    ensures k * (a + b) == k * a + k * b
  {
  }

  lemma SquareOfProduct(a: real, b: real)
    ensures Square(a * b) == Square(a) * Square(b)
  {
  }

  lemma Associates(a: real, b: real, c: real)
    requires c != 0.0
    ensures a * b / c == a * (b / c) == a / c * b
  {
    var q := b / c;
    assert q * c == b;
    assert (a * q) * c == a * b;
    QuotientIs(a * b, a * q, c);
    var r := a / c;
    assert r * c == a;
    assert (r * b) * c == a * b;
    QuotientIs(a * b, r * b, c);
  }

  // ---------------------------------------------------------------------------------------------
  // Sums and spread
  // ---------------------------------------------------------------------------------------------

  function Sum(xs: seq<real>): real {
    if xs == [] then 0.0 else Sum(xs[..|xs| - 1]) + xs[|xs| - 1]
  }

  function SumSquares(xs: seq<real>): real {
    if xs == [] then 0.0 else SumSquares(xs[..|xs| - 1]) + Square(xs[|xs| - 1])
  }

  function Mean(xs: seq<real>): real
    requires xs != []
  {
    Sum(xs) / |xs| as real
  }

  function Residual(n: nat, sum: real, sumsq: real): real
    requires n != 0
  {
    sumsq - sum * sum / n as real
  }

  /** The argument of the square root in stddev. */
  function SampleVariance(n: nat, sum: real, sumsq: real): real
    requires n >= 2
  {
    Residual(n, sum, sumsq) / (n - 1) as real
  }

  function Variance(xs: seq<real>): real
    requires |xs| >= 2
  {
    SampleVariance(|xs|, Sum(xs), SumSquares(xs))
  }

  /** The squared deviations from m, added up. */
  function Spread(xs: seq<real>, m: real): real {
    if xs == [] then 0.0 else Spread(xs[..|xs| - 1], m) + Square(xs[|xs| - 1] - m)
  }

  function Expanded(n: nat, sum: real, sumsq: real, m: real): real {
    sumsq - 2.0 * m * sum + n as real * m * m
  }

  lemma ExpandsStep(n: nat, t: real, q: real, m: real, x: real)
    ensures Expanded(n, t, q, m) + Square(x - m) == Expanded(n + 1, t + x, q + Square(x), m)
  {
    assert (x - m) * (x - m) == x * x - 2.0 * m * x + m * m;
    assert 2.0 * m * (t + x) == 2.0 * m * t + 2.0 * m * x;
    assert (n + 1) as real * m * m == n as real * m * m + m * m;
  }

  lemma {:induction false} SpreadExpands(xs: seq<real>, m: real)
    ensures Spread(xs, m) == Expanded(|xs|, Sum(xs), SumSquares(xs), m)
  {
    if xs != [] {
      var front, x := xs[..|xs| - 1], xs[|xs| - 1];
      hide Expanded, Square;
      SpreadExpands(front, m);
      ExpandsStep(|front|, Sum(front), SumSquares(front), m, x);
    }
  }

  /** No spread is negative, and it is zero exactly when every score is m. */
  lemma {:induction false} SpreadIsPositive(xs: seq<real>, m: real)
    ensures Spread(xs, m) >= 0.0
    ensures Spread(xs, m) == 0.0 <==> forall x | x in xs :: x == m
  {
    if xs != [] {
      var front, x := xs[..|xs| - 1], xs[|xs| - 1];
      SpreadIsPositive(front, m);
      assert xs == front + [x];
      hide Square;
      SquareIsPositive(x - m);
      if y :| y in front && y != m {
        assert y in xs;
      } else {
        assert x in xs;
        assert x == m ==> forall y | y in xs :: y == m;
      }
    }
  }

  lemma AboutTheMean(n: nat, t: real, q: real, m: real)
    requires n != 0 && m == t / n as real
    ensures Residual(n, t, q) == Expanded(n, t, q, m)
  {
    var k := n as real;
    assert m * k == t;
    assert k * m * m == m * t;
    QuotientIs(t * t, m * t, k);
  }

  /** What stddev divides by n - 1 and takes the root of is the spread about the mean, so never negative. */
  lemma ResidualIsSpread(xs: seq<real>)
    requires xs != []
    ensures Residual(|xs|, Sum(xs), SumSquares(xs)) == Spread(xs, Mean(xs)) >= 0.0
  {
    hide Residual, Expanded;
    SpreadExpands(xs, Mean(xs));
    SpreadIsPositive(xs, Mean(xs));
    AboutTheMean(|xs|, Sum(xs), SumSquares(xs), Mean(xs));
  }

  lemma {:induction false} SumOfConcat(xs: seq<real>, ys: seq<real>)
    ensures Sum(xs + ys) == Sum(xs) + Sum(ys) && SumSquares(xs + ys) == SumSquares(xs) + SumSquares(ys)
  {
    if ys == [] {
      assert xs + ys == xs;
    } else {
      var front := ys[..|ys| - 1];
      SumOfConcat(xs, front);
      assert (xs + ys)[..|xs + ys| - 1] == xs + front;
    }
  }

  lemma SumWithout(ys: seq<real>, i: nat)
    requires i < |ys|
    ensures var rest := ys[..i] + ys[i + 1..];
      && multiset(rest) == multiset(ys) - multiset{ys[i]}
      && Sum(ys) == Sum(rest) + ys[i] && SumSquares(ys) == SumSquares(rest) + Square(ys[i])
  {
    var a, b := ys[..i], ys[i + 1..];
    assert ys == a + ([ys[i]] + b);
    SumOfConcat(a, b);
    SumOfConcat(a, [ys[i]] + b);
    SumOfConcat([ys[i]], b);
  }

  /** Sums do not depend on the order of the scores. */
  lemma {:induction false} SumOfPermutation(xs: seq<real>, ys: seq<real>)
    requires multiset(xs) == multiset(ys)
    ensures |xs| == |ys| && Sum(xs) == Sum(ys) && SumSquares(xs) == SumSquares(ys)
  {
    assert |multiset(xs)| == |xs| && |multiset(ys)| == |ys|;
    if xs != [] {
      hide *;
      assert xs[0] in multiset(ys);
      var i :| 0 <= i < |ys| && ys[i] == xs[0];
      SumWithout(xs, 0);
      SumWithout(ys, i);
      SumOfPermutation(xs[..0] + xs[1..], ys[..i] + ys[i + 1..]);
    }
  }

  // ---------------------------------------------------------------------------------------------
  // Several groups of scores
  // ---------------------------------------------------------------------------------------------

  /** The scores of several groups, one group after the other. */
  function Pool(xss: seq<seq<real>>): seq<real> {
    if xss == [] then [] else xss[0] + Pool(xss[1..])
  }

  lemma {:induction false} PoolOneMore(xss: seq<seq<real>>, k: nat, x: real)
    requires k < |xss|
    ensures multiset(Pool(xss[k := xss[k] + [x]])) == multiset(Pool(xss)) + multiset{x}
  {
    if k > 0 {
      PoolOneMore(xss[1..], k - 1, x);
      assert xss[k := xss[k] + [x]][1..] == xss[1..][k - 1 := xss[k] + [x]];
    } else {
      assert xss[k := xss[k] + [x]][1..] == xss[1..];
    }
  }

  /** The sizes, the sums and the sums of squares of the groups, added up. */
  function Totals(xss: seq<seq<real>>): (nat, real, real) {
    if xss == [] then (0, 0.0, 0.0)
    else
      var t := Totals(xss[1..]);
      (|xss[0]| + t.0, Sum(xss[0]) + t.1, SumSquares(xss[0]) + t.2)
  }

  lemma {:induction false} TotalsOfPool(xss: seq<seq<real>>)
    ensures Totals(xss) == (|Pool(xss)|, Sum(Pool(xss)), SumSquares(Pool(xss)))
  {
    if xss != [] {
      TotalsOfPool(xss[1..]);
      hide Sum, SumSquares;
      SumOfConcat(xss[0], Pool(xss[1..]));
    }
  }

  /** So stddev never takes the root of a negative number. */
  lemma VarianceIsPositive(xs: seq<real>)
    requires |xs| >= 2
    ensures Variance(xs) >= 0.0
  {
    ResidualIsSpread(xs);
    QuotientIsPositive(Residual(|xs|, Sum(xs), SumSquares(xs)), (|xs| - 1) as real);
  }

  // ---------------------------------------------------------------------------------------------
  // LINEAR normalization
  // ---------------------------------------------------------------------------------------------

  function Linear(s: real, rm: real, rd: real, nm: real, nd: real): real
    requires rd != 0.0
  {
    nd * (s - rm) / rd + nm
  }

  function LinearAll(xs: seq<real>, rm: real, rd: real, nm: real, nd: real): (ys: seq<real>)
    requires rd != 0.0
    ensures |ys| == |xs|
  {
    if xs == [] then []
    else LinearAll(xs[..|xs| - 1], rm, rd, nm, nd) + [Linear(xs[|xs| - 1], rm, rd, nm, nd)]
  }

  /** A deviation too small to divide by is replaced. */
  function Divisor(rd: real): (d: real)
    ensures d >= EPSILON
  {
    if rd < EPSILON then 2.0 * EPSILON else rd
  }

  lemma LinearIsScaling(s: real, rm: real, rd: real, nm: real, nd: real)
    requires rd != 0.0
    ensures Linear(s, rm, rd, nm, nd) == nd / rd * (s - rm) + nm
  {
  }

  lemma SumStep(x: real, n: nat, rm: real, rd: real, nm: real, nd: real, a: real)
    requires rd != 0.0
    ensures ScaledSum(n, a, rm, nm, nd / rd) + Linear(x, rm, rd, nm, nd) == ScaledSum(n + 1, a + x, rm, nm, nd / rd)
  {
    LinearIsScaling(x, rm, rd, nm, nd);
    Distributes(nd / rd, a - n as real * rm, x - rm);
  }

  function ScaledSum(n: nat, sum: real, rm: real, nm: real, k: real): real {
    k * (sum - n as real * rm) + n as real * nm
  }

  lemma {:induction false} SumOfLinear(xs: seq<real>, rm: real, rd: real, nm: real, nd: real)
    requires rd != 0.0
    ensures Sum(LinearAll(xs, rm, rd, nm, nd)) == ScaledSum(|xs|, Sum(xs), rm, nm, nd / rd)
  {
    if xs != [] {
      hide Linear, ScaledSum;
      var front, x := xs[..|xs| - 1], xs[|xs| - 1];
      var zs := LinearAll(front, rm, rd, nm, nd);
      SumOfLinear(front, rm, rd, nm, nd);
      SumStep(x, |front|, rm, rd, nm, nd, Sum(front));
      assert (zs + [Linear(x, rm, rd, nm, nd)])[..|front|] == zs;
    }
  }

  lemma SpreadStep(x: real, rm: real, rd: real, nm: real, nd: real, a: real, b: real)
    requires rd != 0.0 && b == a + Square(x - rm)
    ensures Times(Square(nd / rd), a) + Square(Linear(x, rm, rd, nm, nd) - nm) == Times(Square(nd / rd), b)
  {
    LinearIsScaling(x, rm, rd, nm, nd);
    hide Square, Linear;
    assert Linear(x, rm, rd, nm, nd) - nm == nd / rd * (x - rm);
    SquareOfProduct(nd / rd, x - rm);
    Distributes(Square(nd / rd), a, Square(x - rm));
  }

  lemma SpreadAppend(zs: seq<real>, z: real, m: real)
    ensures Spread(zs + [z], m) == Spread(zs, m) + Square(z - m)
  {
    assert (zs + [z])[..|zs|] == zs;
  }

  lemma {:induction false} SpreadOfLinear(xs: seq<real>, rm: real, rd: real, nm: real, nd: real)
    requires rd != 0.0
    ensures Spread(LinearAll(xs, rm, rd, nm, nd), nm) == Times(Square(nd / rd), Spread(xs, rm))
  {
    hide Square, Linear;
    if xs == [] {
      assert Spread(LinearAll(xs, rm, rd, nm, nd), nm) == 0.0 == Spread(xs, rm);
    } else {
      hide Times;
      var front, x := xs[..|xs| - 1], xs[|xs| - 1];
      var zs := LinearAll(front, rm, rd, nm, nd);
      assert LinearAll(xs, rm, rd, nm, nd) == zs + [Linear(x, rm, rd, nm, nd)];
      assert Spread(xs, rm) == Spread(front, rm) + Square(x - rm);
      SpreadOfLinear(front, rm, rd, nm, nd);
      SpreadAppend(zs, Linear(x, rm, rd, nm, nd), nm);
      SpreadStep(x, rm, rd, nm, nd, Spread(front, rm), Spread(xs, rm));
    }
  }

  /** Whatever was tallied, the normalized scores have exactly the requested mean. */
  lemma LinearMean(xs: seq<real>, rd: real, nm: real, nd: real)
    requires xs != []
    ensures Mean(LinearAll(xs, Mean(xs), Divisor(rd), nm, nd)) == nm
  {
    SumOfLinear(xs, Mean(xs), Divisor(rd), nm, nd);
    CentredSum(|xs|, Sum(xs), nd / Divisor(rd), nm);
  }

  lemma CentredSum(n: nat, t: real, k: real, nm: real)
    requires n != 0
    ensures ScaledSum(n, t, t / n as real, nm, k) / n as real == nm
  {
    var m := t / n as real;
    assert n as real * m == t;
    assert k * (t - n as real * m) == 0.0;
    QuotientIs(n as real * nm, nm, n as real);
  }

  lemma RatioAboveEpsilon(nd: real, rd: real)
    requires rd >= EPSILON
    ensures Square(nd / rd) * Square(rd) == Square(nd)
  {
    SquareOfProduct(nd / rd, rd);
  }

  lemma RatioBelow(nd: real, rd: real, d: real)
    requires 0.0 <= rd < d
    ensures Square(nd / d) * Square(rd) == Square(nd) <==> nd == 0.0
  {
    var k := nd / d;
    assert k * d == nd;
    hide Square;
    SquareOfProduct(k, d);
    SquareIsPositive(k);
    if k == 0.0 {
      assert k * d == 0.0;
      assert Square(k) * Square(rd) == 0.0;
      SquareIsPositive(nd);
    } else {
      SquareOrder(rd, d);
      ScaleOrder(Square(k), Square(rd), Square(d));
    }
  }

  /** With rd the deviation of two or more scores, the normalized scores have exactly the requested mean; and
      the requested deviation if and only if rd was not replaced, or no deviation was requested. */
  lemma LinearNormalization(xs: seq<real>, rd: real, nm: real, nd: real)
    requires |xs| >= 2
    requires rd >= 0.0 && Square(rd) == Variance(xs)
    ensures var ys := LinearAll(xs, Mean(xs), Divisor(rd), nm, nd);
      && Mean(ys) == nm
      && (Variance(ys) == Square(nd) <==> (rd >= EPSILON || nd == 0.0))
  {
    LinearMean(xs, rd, nm, nd);
    VarianceOfLinear(xs, Divisor(rd), nm, nd);
    if rd >= EPSILON {
      RatioAboveEpsilon(nd, rd);
    } else {
      RatioBelow(nd, rd, Divisor(rd));
    }
  }

  /** With equal scores no deviation comes out, whatever is asked for. */
  lemma EqualScoresHaveNoDeviation()
    ensures var xs := [1.0, 1.0];
      Variance(xs) == 0.0 && Variance(LinearAll(xs, Mean(xs), Divisor(0.0), 0.0, 1.0)) != Square(1.0)
  {
    var xs := [1.0, 1.0];
    SpreadIsPositive(xs, Mean(xs));
    assert xs[..1] == [1.0] && [1.0][..0] == [];
    assert Sum(xs) == 2.0 && Mean(xs) == 1.0;
    assert forall x | x in xs :: x == 1.0;
    ResidualIsSpread(xs);
    assert Square(0.0) == 0.0;
    LinearNormalization(xs, 0.0, 0.0, 1.0);
  }

  lemma VarianceOfLinear(xs: seq<real>, rd: real, nm: real, nd: real)
    requires |xs| >= 2 && rd != 0.0 && Mean(LinearAll(xs, Mean(xs), rd, nm, nd)) == nm
    ensures Variance(LinearAll(xs, Mean(xs), rd, nm, nd)) == Square(nd / rd) * Variance(xs)
  {
    var ys := LinearAll(xs, Mean(xs), rd, nm, nd);
    hide Residual, Sum, SumSquares, Spread;
    ResidualIsSpread(xs);
    ResidualIsSpread(ys);
    SpreadOfLinear(xs, Mean(xs), rd, nm, nd);
    Associates(Square(nd / rd), Spread(xs, Mean(xs)), (|xs| - 1) as real);
  }
}
