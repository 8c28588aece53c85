/** Spearman's rank correlation over the reals, with the square root as a parameter. */
module RankCorrelation {
  import opened Collections
  import opened Ranking

  function Mean(xs: seq<real>): real
    requires xs != []
  {
    Sum(xs) / |xs| as real
  }

  /** Sum of the products of corresponding deviations. */
  function Products(xs: seq<real>, ys: seq<real>): real
    requires |xs| == |ys|
  {
    if xs == [] then 0.0
    else Products(xs[..|xs| - 1], ys[..|xs| - 1]) + xs[|xs| - 1] * ys[|xs| - 1]
  }

  function Deviations(xs: seq<real>): seq<real>
    requires xs != []
  {
    seq(|xs|, i requires 0 <= i < |xs| => xs[i] - Mean(xs))
  }

  ghost predicate IsSquareRoot(sqrt: real -> real) {
    forall x :: x >= 0.0 ==> sqrt(x) >= 0.0 && sqrt(x) * sqrt(x) == x
  }

  // ----- the Cauchy-Schwarz inequality

  /** The sum of (t x - s y)^2, from the sums of the products. */
  function Form(xx: real, xy: real, yy: real, t: real, s: real): real {
    t * t * xx - 2.0 * t * s * xy + s * s * yy
  }

  lemma {:induction false} QuadraticForm(xs: seq<real>, ys: seq<real>, t: real, s: real)
    requires |xs| == |ys|
    ensures Form(Products(xs, xs), Products(xs, ys), Products(ys, ys), t, s) >= 0.0
  {
    if xs != [] {
      hide Form;
      var n := |xs| - 1;
      QuadraticForm(xs[..n], ys[..n], t, s);
      Expanded(Products(xs[..n], xs[..n]), Products(xs[..n], ys[..n]), Products(ys[..n], ys[..n]), xs[n], ys[n], t, s);
    }
  }

  lemma Expanded(a: real, c: real, b: real, x: real, y: real, t: real, s: real)
    ensures Form(a + x * x, c + x * y, b + y * y, t, s) >= Form(a, c, b, t, s)
  {
    var d := t * x - s * y;
    assert d * d >= 0.0;
    assert d * d == t * t * (x * x) - 2.0 * t * s * (x * y) + s * s * (y * y);
  }

  lemma CauchySchwarz(xs: seq<real>, ys: seq<real>)
    requires |xs| == |ys| && Products(xs, xs) > 0.0
    ensures Products(xs, ys) * Products(xs, ys) <= Products(xs, xs) * Products(ys, ys)
  {
    hide *;
    QuadraticForm(xs, ys, Products(xs, ys), Products(xs, xs));
    Discriminant(Products(xs, xs), Products(xs, ys), Products(ys, ys));
  }

  lemma Discriminant(a: real, c: real, b: real)
    requires a > 0.0 && Form(a, c, b, c, a) >= 0.0
    ensures c * c <= a * b
  {
    hide Form;
    FormFactors(a, c, b);
    PositiveFactor(a, a * b - c * c);
  }

  lemma FormFactors(a: real, c: real, b: real)
    ensures Form(a, c, b, c, a) == a * (a * b - c * c)
  {
    assert a * (a * b - c * c) == a * a * b - a * (c * c);
    assert c * c * a == a * (c * c) && 2.0 * c * a * c == 2.0 * (a * (c * c));
  }

  lemma PositiveFactor(a: real, d: real)
    requires a > 0.0 && a * d >= 0.0
    ensures d >= 0.0
  {
  }

  // ----- the coefficient

  /** The coefficient of two rank columns; zero when one of them does not vary. */
  function Coefficient(left: seq<real>, right: seq<real>, sqrt: real -> real): real
    requires |left| == |right| > 0
  {
    var x, y := Deviations(left), Deviations(right);
    Quotient(Products(x, y), sqrt(Products(x, x)), sqrt(Products(y, y)))
  }

  function Quotient(numerator: real, denominatorLeft: real, denominatorRight: real): real {
    if denominatorLeft != 0.0 && denominatorRight != 0.0 then numerator / (denominatorLeft * denominatorRight) else 0.0
  }

  function Firsts(pairs: seq<(real, real)>): seq<real> {
    seq(|pairs|, i requires 0 <= i < |pairs| => pairs[i].0)
  }

  function Seconds(pairs: seq<(real, real)>): seq<real> {
    seq(|pairs|, i requires 0 <= i < |pairs| => pairs[i].1)
  }

  /** No coefficient for fewer than three pairs. */
  method Spearman(pairs: seq<(real, real)>, sqrt: real -> real) returns (r: Option<real>)
    requires IsSquareRoot(sqrt)
    ensures r == None <==> |pairs| < 3
    ensures r.Some? ==> r.value == Coefficient(Ranks(Firsts(pairs)), Ranks(Seconds(pairs)), sqrt)
    ensures r.Some? ==> -1.0 <= r.value <= 1.0
  {
    if |pairs| < 3 {
      return None;
    }
    var left := Rank(Firsts(pairs));
    var right := Rank(Seconds(pairs));
    CoefficientInRange(left, right, sqrt);
    return Some(Coefficient(left, right, sqrt));
  }

  lemma {:induction false} SquaresNonNegative(xs: seq<real>)
    ensures Products(xs, xs) >= 0.0
  {
    if xs != [] {
      SquaresNonNegative(xs[..|xs| - 1]);
    }
  }

  lemma CoefficientInRange(left: seq<real>, right: seq<real>, sqrt: real -> real)
    requires IsSquareRoot(sqrt) && |left| == |right| > 0
    ensures -1.0 <= Coefficient(left, right, sqrt) <= 1.0
  {
    hide IsSquareRoot, Products, Deviations;
    var x, y := Deviations(left), Deviations(right);
    SquaresNonNegative(x);
    SquaresNonNegative(y);
    DeviationsLength(left);
    DeviationsLength(right);
    RootOf(sqrt, Products(x, x));
    RootOf(sqrt, Products(y, y));
    var l, r := sqrt(Products(x, x)), sqrt(Products(y, y));
    if l != 0.0 && r != 0.0 {
      CauchySchwarz(x, y);
      QuotientInRange(Products(x, y), l, r);
    }
  }

  lemma DeviationsLength(xs: seq<real>)
    requires xs != []
    ensures |Deviations(xs)| == |xs|
  {
  }

  lemma RootOf(sqrt: real -> real, p: real)
    requires IsSquareRoot(sqrt) && p >= 0.0
    ensures sqrt(p) >= 0.0 && sqrt(p) * sqrt(p) == p && (sqrt(p) == 0.0 <==> p == 0.0)
  {
    SquareIsZero(sqrt(p), p);
  }

  lemma PositiveFactors(v: real, w: real, product: real)
    requires product == v * w && v > 0.0 && w > 0.0
    ensures product > 0.0
  {
  }

  lemma SquareIsZero(v: real, square: real)
    requires square == v * v
    ensures square >= 0.0 && (square == 0.0 <==> v == 0.0)
  {
    if v > 0.0 {
      PositiveFactors(v, v, square);
    } else if v < 0.0 {
      PositiveFactors(-v, -v, square);
    }
  }

  lemma SelfQuotient(p: real, l: real)
    requires l * l == p
    ensures Quotient(p, l, l) == (if p != 0.0 then 1.0 else 0.0)
    ensures Quotient(-p, l, l) == (if p != 0.0 then -1.0 else 0.0)
  {
    SquareIsZero(l, p);
    assert p != 0.0 ==> p / p == 1.0 && -p / p == -1.0;
  }

  lemma QuotientInRange(c: real, l: real, r: real)
    requires l > 0.0 && r > 0.0 && c * c <= (l * l) * (r * r)
    ensures -1.0 <= c / (l * r) <= 1.0
  {
    var d := l * r;
    PositiveFactors(l, r, d);
    assert (l * l) * (r * r) == d * d;
    SquaresCompare(c, d);
    Divided(c, d);
  }

  lemma SquaresCompare(c: real, d: real)
    requires d > 0.0 && c * c <= d * d
    ensures -d <= c <= d
  {
    assert c > d ==> c * c > d * d;
    assert -c > d ==> (-c) * (-c) > d * d;
  }

  lemma Divided(c: real, d: real)
    requires d > 0.0 && -d <= c <= d
    ensures -1.0 <= c / d <= 1.0
  {
    var q := c / d;
    assert q * d == c;
    assert q > 1.0 ==> q * d > d;
    assert q < -1.0 ==> q * d < -d;
  }

  // ----- what the coefficient does not see, and when it is extreme

  /** The coefficient does not change when either column is rescaled by a strictly increasing map. */
  lemma RescalingKeepsCoefficient(pairs: seq<(real, real)>, f: real -> real, g: real -> real, sqrt: real -> real)
    requires Increasing(f) && Increasing(g) && pairs != []
    ensures Coefficient(Ranks(Mapped(f, Firsts(pairs))), Ranks(Mapped(g, Seconds(pairs))), sqrt) ==
            Coefficient(Ranks(Firsts(pairs)), Ranks(Seconds(pairs)), sqrt)
  {
    IncreasingKeepsRanks(f, Firsts(pairs));
    IncreasingKeepsRanks(g, Seconds(pairs));
  }

  /** A column that is a strictly increasing function of the other correlates perfectly, unless both are constant. */
  lemma IncreasingCorrelatesPerfectly(values: seq<real>, f: real -> real, sqrt: real -> real)
    requires Increasing(f) && IsSquareRoot(sqrt) && values != []
    ensures var x := Deviations(Ranks(values));
            Coefficient(Ranks(values), Ranks(Mapped(f, values)), sqrt) == if Products(x, x) != 0.0 then 1.0 else 0.0
  {
    IncreasingKeepsRanks(f, values);
    OwnCoefficient(Ranks(values), Ranks(values), sqrt);
  }

  /** The coefficient of a column with itself, or with one whose deviations are the opposite. */
  lemma OwnCoefficient(left: seq<real>, right: seq<real>, sqrt: real -> real)
    requires IsSquareRoot(sqrt) && |left| == |right| > 0
    ensures var x, y := Deviations(left), Deviations(right);
            Products(y, y) == Products(x, x) ==>
              && (Products(x, y) == Products(x, x) ==>
                    Coefficient(left, right, sqrt) == if Products(x, x) != 0.0 then 1.0 else 0.0)
              && (Products(x, y) == -Products(x, x) ==>
                    Coefficient(left, right, sqrt) == if Products(x, x) != 0.0 then -1.0 else 0.0)
  {
    hide IsSquareRoot, Products, Deviations, Quotient;
    var x := Deviations(left);
    SquaresNonNegative(x);
    RootOf(sqrt, Products(x, x));
    SelfQuotient(Products(x, x), sqrt(Products(x, x)));
  }

  lemma RanksLength(values: seq<real>)
    ensures |Ranks(values)| == |values|
  {
  }

  lemma {:induction false} NegatedProducts(xs: seq<real>, ys: seq<real>)
    requires |xs| == |ys| && forall i :: 0 <= i < |xs| ==> ys[i] == -xs[i]
    ensures Products(xs, ys) == -Products(xs, xs) && Products(ys, ys) == Products(xs, xs)
  {
    if xs != [] {
      NegatedProducts(xs[..|xs| - 1], ys[..|xs| - 1]);
    }
  }

  /** The mean rank is (n + 1)/2. */
  lemma MeanRank(values: seq<real>)
    requires values != []
    ensures Mean(Ranks(values)) == (|values| + 1) as real / 2.0
  {
    RanksAddUp(values);
    var n := |values| as real;
    assert (|values| * (|values| + 1)) as real == n * (n + 1.0);
  }

  /** A strictly decreasing function of the other column correlates to -1. */
  lemma DecreasingCorrelatesInversely(values: seq<real>, f: real -> real, sqrt: real -> real)
    requires Decreasing(f) && IsSquareRoot(sqrt) && values != []
    ensures var x := Deviations(Ranks(values));
            Coefficient(Ranks(values), Ranks(Mapped(f, values)), sqrt) == if Products(x, x) != 0.0 then -1.0 else 0.0
  {
    hide Products, Ranks, Mean, Coefficient, IsSquareRoot;
    RanksLength(values);
    RanksLength(Mapped(f, values));
    var x, y := Deviations(Ranks(values)), Deviations(Ranks(Mapped(f, values)));
    MeanRank(values);
    MeanRank(Mapped(f, values));
    forall i | 0 <= i < |x|
      ensures y[i] == -x[i]
    {
      DecreasingTurnsRanks(f, values, i);
    }
    NegatedProducts(x, y);
    OwnCoefficient(Ranks(values), Ranks(Mapped(f, values)), sqrt);
  }

  lemma {:induction false} ZeroSquares(xs: seq<real>, i: nat)
    requires Products(xs, xs) == 0.0 && i < |xs|
    ensures xs[i] == 0.0
  {
    var n := |xs| - 1;
    SquaresNonNegative(xs[..n]);
    SquareIsZero(xs[n], xs[n] * xs[n]);
    if i < n {
      ZeroSquares(xs[..n], i);
    }
  }

  lemma {:induction false} NoDeviations(xs: seq<real>)
    requires forall i :: 0 <= i < |xs| ==> xs[i] == 0.0
    ensures Products(xs, xs) == 0.0
  {
    if xs != [] {
      NoDeviations(xs[..|xs| - 1]);
    }
  }

  ghost predicate AllTied(values: seq<real>) {
    forall i, j :: 0 <= i < |values| && 0 <= j < |values| ==> values[i] == values[j]
  }

  /** A column has no spread, and the coefficient is zero, exactly when all its values are tied. */
  lemma NoSpreadIffTied(values: seq<real>)
    requires values != []
    ensures var x := Deviations(Ranks(values)); Products(x, x) == 0.0 <==> AllTied(values)
  {
    var x := Deviations(Ranks(values));
    if AllTied(values) {
      TiedCounts(values, values[0]);
      MeanRank(values);
      NoDeviations(x);
    }
    if Products(x, x) == 0.0 {
      forall i, j | 0 <= i < |values| && 0 <= j < |values|
        ensures values[i] == values[j]
      {
        ZeroSquares(x, i);
        ZeroSquares(x, j);
        RanksOrderValues(values, i, j);
        RanksOrderValues(values, j, i);
      }
    }
  }
}
