/** Colours of the vertex colour selector, in exact fixed-point arithmetic.

    A channel value is an integer number of units of 1/10000, the resolution to
    which every face average is rounded.  Distances are compared on squares, so
    no square root and no floating point is needed.
 */
module Colors {

  /** Units per 1.0 of a colour channel. */
  const UnitsPerOne: nat := 10000

  /** The matching threshold 0.01 (VC_SELECTOR_THRESHOLD and the literal used
      by the selection operators), in units. */
  const Threshold: nat := 100

  /** A linear RGB colour, each channel in units of 1/10000. */
  datatype Rgb = Rgb(r: int, g: int, b: int)

  /** A corner colour list of one face, in corner order. */
  type Face = seq<Rgb>

  /** Every face has at least one corner (the host never builds a face without
      corners; the averaging divides by the corner count). */
  predicate WellFormed(faces: seq<Face>)
  {
    forall i :: 0 <= i < |faces| ==> |faces[i]| > 0
  }

  function Abs(x: int): nat
  {
    if x < 0 then -x else x
  }

  function Add(a: Rgb, b: Rgb): Rgb
  {
    Rgb(a.r + b.r, a.g + b.g, a.b + b.b)
  }

  function Scaled(a: Rgb, k: int): Rgb
  {
    Rgb(k * a.r, k * a.g, k * a.b)
  }

  /** Squared Euclidean distance of two colours over their three channels. */
  function SqDist(a: Rgb, b: Rgb): (d: int)
    ensures d >= 0
    ensures d == 0 <==> a == b
  {
    SqNonNegative(a.r - b.r);
    SqNonNegative(a.g - b.g);
    SqNonNegative(a.b - b.b);
    (a.r - b.r) * (a.r - b.r) + (a.g - b.g) * (a.g - b.g) + (a.b - b.b) * (a.b - b.b)
  }

  lemma SqNonNegative(x: int)
    ensures x * x >= 0
    ensures x * x == 0 <==> x == 0
  {
    if x < 0 {
      assert x * x == (-x) * (-x);
    }
  }

  /** color_close: the Euclidean distance between two colours is strictly
      below the threshold, compared as squared distance against the squared
      threshold. */
  predicate Close(a: Rgb, b: Rgb, t: nat)
    // a colour matches itself exactly when the threshold is positive
    ensures a == b ==> (Close(a, b, t) <==> t > 0)
    // under a zero threshold nothing matches
    ensures Close(a, b, t) ==> t > 0
  {
    SqDist(a, b) < t * t
  }

  lemma CloseSymmetric(a: Rgb, b: Rgb, t: nat)
    ensures Close(a, b, t) == Close(b, a, t)
  {
    assert (a.r - b.r) * (a.r - b.r) == (b.r - a.r) * (b.r - a.r);
    assert (a.g - b.g) * (a.g - b.g) == (b.g - a.g) * (b.g - a.g);
    assert (a.b - b.b) * (a.b - b.b) == (b.b - a.b) * (b.b - a.b);
  }

  /** For the true (non-negative) Euclidean distance d, Close holds exactly
      when d < t: the comparison on squares loses nothing, and a colour at
      exactly the threshold distance does not match. */
  lemma CloseIffDistanceBelow(a: Rgb, b: Rgb, t: nat, d: real)
    requires d >= 0.0 && d * d == SqDist(a, b) as real
    ensures Close(a, b, t) <==> d < t as real
  {
    CastSquares(t, 0, 0);
    SquareCompare(d, t as real);
  }

  lemma SquareCompare(x: real, y: real)
    requires x >= 0.0 && y >= 0.0
    ensures x < y <==> x * x < y * y
  {
    if x < y {
      assert (y - x) * x >= 0.0;
      assert (y - x) * y > 0.0;
    } else {
      assert (x - y) * y >= 0.0;
      assert (x - y) * x >= 0.0;
    }
  }

  /** With threshold 0.01, (0.5, 0.5, 0.5) is close to (0.505, 0.505, 0.505)
      and not to (0.6, 0.5, 0.5). */
  lemma ThresholdExamples()
    ensures Close(Rgb(5000, 5000, 5000), Rgb(5050, 5050, 5050), Threshold)
    ensures !Close(Rgb(5000, 5000, 5000), Rgb(6000, 5000, 5000), Threshold)
  {
  }

  /** Python's round() applied to the exact quotient s / n: the nearest
      integer, with halves going to the even neighbour. */
  function RoundHalfEven(s: int, n: int): (q: int)
    requires n > 0
    ensures 2 * Abs(s - n * q) <= n
    ensures 2 * Abs(s - n * q) == n ==> q % 2 == 0
  {
    var f, rem := s / n, s % n;
    assert s == n * f + rem;
    assert s - n * (f + 1) == rem - n;
    if 2 * rem < n then f
    else if 2 * rem > n then f + 1
    else if f % 2 == 0 then f
    else f + 1
  }

  /** Two integers within half a step of s / n that differ are neighbours,
      each exactly half a step away. */
  lemma NeighbourTies(ek: int, eq: int, n: int, d: int)
    requires n > 0 && 2 * Abs(ek) <= n && 2 * Abs(eq) <= n
    requires ek == eq + n * d
    ensures d == 0 || ((d == 1 || d == -1) && 2 * Abs(ek) == n && 2 * Abs(eq) == n)
  {
  }

  lemma DistanceShift(s: int, n: int, k: int, d: int)
    ensures s - n * k == (s - n * (k + d)) + n * d
  {
  }

  /** The two properties of RoundHalfEven pin its result down: no other
      integer is as near to s / n with the same tie rule. */
  lemma RoundHalfEvenUnique(s: int, n: int, k: int)
    requires n > 0
    requires 2 * Abs(s - n * k) <= n
    requires 2 * Abs(s - n * k) == n ==> k % 2 == 0
    ensures k == RoundHalfEven(s, n)
  {
    var q := RoundHalfEven(s, n);
    var d := q - k;
    DistanceShift(s, n, k, d);
    // Were q and k different, both would be ties, hence both even, yet
    // they would be neighbours.
    NeighbourTies(s - n * k, s - n * q, n, d);
  }

  /** Component-wise sum of the corner colours. */
  function Sum(cs: seq<Rgb>): Rgb
  {
    if |cs| == 0 then Rgb(0, 0, 0) else Add(cs[0], Sum(cs[1..]))
  }

  /** A colour whose channels all lie in [0, 1]. */
  predicate InRange(c: Rgb)
  {
    0 <= c.r <= UnitsPerOne && 0 <= c.g <= UnitsPerOne && 0 <= c.b <= UnitsPerOne
  }

  /** The representative colour of a face: each channel of the corner mean,
      rounded to 4 decimals, i.e. to whole units.  Corners with channels in
      [0, 1] give an average in [0, 1]. */
  function Average(cs: Face): (avg: Rgb)
    requires |cs| > 0
    ensures (forall i :: 0 <= i < |cs| ==> InRange(cs[i])) ==> InRange(avg)
  {
    var s, n := Sum(cs), |cs|;
    var avg := Rgb(RoundHalfEven(s.r, n), RoundHalfEven(s.g, n), RoundHalfEven(s.b, n));
    if forall i :: 0 <= i < |cs| ==> InRange(cs[i]) then
      SumInRange(cs);
      RoundInRange(s.r, n, avg.r);
      RoundInRange(s.g, n, avg.g);
      RoundInRange(s.b, n, avg.b);
      avg
    else
      avg
  }

  /** The corner sum of colours in [0, 1] lies between 0 and the corner count
      per channel. */
  lemma {:induction false} SumInRange(cs: seq<Rgb>)
    requires forall i :: 0 <= i < |cs| ==> InRange(cs[i])
    ensures var s := Sum(cs);
            0 <= s.r <= |cs| * UnitsPerOne && 0 <= s.g <= |cs| * UnitsPerOne &&
            0 <= s.b <= |cs| * UnitsPerOne
  {
    if cs != [] {
      assert InRange(cs[0]);
      SumInRange(cs[1..]);
    }
  }

  /** An integer within half a step of s / n, where s / n lies in [0, 1],
      lies in [0, 1] itself (all in units). */
  lemma RoundInRange(s: int, n: int, q: int)
    requires n > 0 && 0 <= s <= n * UnitsPerOne && 2 * Abs(s - n * q) <= n
    ensures 0 <= q <= UnitsPerOne
  {
    assert 2 * s - n <= 2 * (n * q) <= 2 * s + n;
    assert n * (2 * q + 1) == 2 * (n * q) + n;
    PositiveFactor(n, 2 * q + 1);
    assert n * (2 * UnitsPerOne + 1 - 2 * q) == 2 * (n * UnitsPerOne) + n - 2 * (n * q);
    PositiveFactor(n, 2 * UnitsPerOne + 1 - 2 * q);
  }

  lemma PositiveFactor(n: int, x: int)
    requires n > 0 && n * x >= 0
    ensures x >= 0
  {
  }

  /** Each channel of the face average is within half a unit of the exact
      corner mean. */
  lemma AverageNearMean(cs: Face)
    requires |cs| > 0
    ensures var avg, s, n := Average(cs), Sum(cs), |cs|;
            2 * Abs(n * avg.r - s.r) <= n &&
            2 * Abs(n * avg.g - s.g) <= n &&
            2 * Abs(n * avg.b - s.b) <= n
  {
    var avg, s, n := Average(cs), Sum(cs), |cs|;
    assert Abs(n * avg.r - s.r) == Abs(s.r - n * avg.r);
    assert Abs(n * avg.g - s.g) == Abs(s.g - n * avg.g);
    assert Abs(n * avg.b - s.b) == Abs(s.b - n * avg.b);
  }

  lemma {:induction false} SumRemove(cs: seq<Rgb>, i: nat)
    requires i < |cs|
    ensures Sum(cs) == Add(cs[i], Sum(cs[..i] + cs[i + 1..]))
  {
    var rest := cs[..i] + cs[i + 1..];
    if i == 0 {
      assert rest == cs[1..];
    } else {
      var tail := cs[1..][..i - 1] + cs[1..][i..];
      SumRemove(cs[1..], i - 1);
      assert rest[0] == cs[0];
      assert rest[1..] == tail;
      assert Sum(rest) == Add(cs[0], Sum(tail));
    }
  }

  /** The sum of the corner colours does not depend on the corner order. */
  lemma {:induction false} SumOrderIndependent(cs: seq<Rgb>, ds: seq<Rgb>)
    requires multiset(cs) == multiset(ds)
    ensures Sum(cs) == Sum(ds)
  {
    if |cs| > 0 {
      var x := cs[0];
      assert x in multiset(ds);
      var i :| 0 <= i < |ds| && ds[i] == x;
      var rest := ds[..i] + ds[i + 1..];
      assert ds == ds[..i] + [x] + ds[i + 1..];
      assert cs == [x] + cs[1..];
      assert multiset(ds) == multiset(ds[..i]) + multiset([x]) + multiset(ds[i + 1..]);
      assert multiset(cs) == multiset([x]) + multiset(cs[1..]);
      assert multiset(rest) == multiset(ds[..i]) + multiset(ds[i + 1..]);
      assert multiset(cs[1..]) == multiset(cs) - multiset{x};
      assert multiset(rest) == multiset(ds) - multiset{x};
      SumOrderIndependent(cs[1..], rest);
      SumRemove(ds, i);
    } else {
      assert |ds| == |multiset(ds)| == 0;
    }
  }

  /** The face average is independent of the order of the face's corners. */
  lemma AverageOrderIndependent(cs: Face, ds: Face)
    requires |cs| > 0 && multiset(cs) == multiset(ds)
    ensures |ds| == |cs| && Average(cs) == Average(ds)
  {
    assert |ds| == |multiset(ds)| == |multiset(cs)| == |cs|;
    SumOrderIndependent(cs, ds);
  }

  lemma {:induction false} SumUniform(cs: seq<Rgb>, c: Rgb)
    requires forall i :: 0 <= i < |cs| ==> cs[i] == c
    ensures Sum(cs) == Scaled(c, |cs|)
  {
    if cs != [] {
      SumUniform(cs[1..], c);
      assert |cs| * c.r == c.r + (|cs| - 1) * c.r;
      assert |cs| * c.g == c.g + (|cs| - 1) * c.g;
      assert |cs| * c.b == c.b + (|cs| - 1) * c.b;
    }
  }

  /** A face painted in one colour averages to exactly that colour. */
  lemma AverageUniform(cs: Face, c: Rgb)
    requires |cs| > 0
    requires forall i :: 0 <= i < |cs| ==> cs[i] == c
    ensures Average(cs) == c
  {
    var n := |cs|;
    SumUniform(cs, c);
    RoundHalfEvenUnique(n * c.r, n, c.r);
    RoundHalfEvenUnique(n * c.g, n, c.g);
    RoundHalfEvenUnique(n * c.b, n, c.b);
  }

  /** A colour given exactly as the mean sum / count of count colours; the
      picked colour is compared unrounded, so it is carried this way. */
  datatype Target = Target(sum: Rgb, count: nat)

  /** An already rounded colour, as a target. */
  function Exactly(c: Rgb): Target
  {
    Target(c, 1)
  }

  /** The unrounded mean colour of a face, as a target. */
  function MeanOf(cs: Face): Target
  {
    Target(Sum(cs), |cs|)
  }

  /** color_close(a, target, t) for a target given as a mean: the squared
      distance between a and sum / count is below t * t, multiplied through
      by count * count. */
  predicate Near(a: Rgb, target: Target, t: nat)
    requires target.count > 0
  {
    SqDist(Scaled(a, target.count), target.sum) < target.count * target.count * (t * t)
  }

  /** Against an already rounded colour, Near is color_close. */
  lemma NearExactly(a: Rgb, c: Rgb, t: nat)
    ensures Near(a, Exactly(c), t) == Close(a, c, t)
  {
    assert Scaled(a, 1) == a;
  }

  /** Real-valued colours, the exact reading of the source's floats. */
  datatype RealRgb = RealRgb(r: real, g: real, b: real)

  function AsReal(c: Rgb): RealRgb
  {
    RealRgb(c.r as real, c.g as real, c.b as real)
  }

  function Mean(target: Target): RealRgb
    requires target.count > 0
  {
    var n := target.count as real;
    RealRgb(target.sum.r as real / n, target.sum.g as real / n, target.sum.b as real / n)
  }

  function RealSqDist(x: RealRgb, y: RealRgb): real
  {
    (x.r - y.r) * (x.r - y.r) + (x.g - y.g) * (x.g - y.g) + (x.b - y.b) * (x.b - y.b)
  }

  lemma ChannelScaled(x: int, s: int, n: nat)
    requires n > 0
    ensures (x as real - s as real / n as real) * n as real == (n * x - s) as real
  {
  }

  lemma SquaresScaled(er: real, eg: real, eb: real, nr: real)
    ensures (er * er + eg * eg + eb * eb) * (nr * nr)
         == (er * nr) * (er * nr) + (eg * nr) * (eg * nr) + (eb * nr) * (eb * nr)
  {
  }

  lemma CastSquares(x: int, y: int, z: int)
    ensures (x * x + y * y + z * z) as real
         == (x as real) * (x as real) + (y as real) * (y as real) + (z as real) * (z as real)
  {
  }

  lemma ScaledCompare(d: real, bound: real, nn: real)
    requires nn > 0.0
    ensures d < bound <==> d * nn < bound * nn
  {
    if d < bound {
      assert (bound - d) * nn > 0.0;
    } else {
      assert (d - bound) * nn >= 0.0;
    }
  }

  /** The real squared distance to the mean, scaled by count squared, is the
      integer squared distance that Near compares. */
  lemma ScaledDistance(a: Rgb, target: Target)
    requires target.count > 0
    ensures var nr := target.count as real;
            RealSqDist(AsReal(a), Mean(target)) * (nr * nr)
              == SqDist(Scaled(a, target.count), target.sum) as real
  {
    var n := target.count;
    var nr := n as real;
    var s, m := target.sum, Mean(target);
    var er, eg, eb := a.r as real - m.r, a.g as real - m.g, a.b as real - m.b;
    var zr, zg, zb := n * a.r - s.r, n * a.g - s.g, n * a.b - s.b;
    ChannelScaled(a.r, s.r, n);
    ChannelScaled(a.g, s.g, n);
    ChannelScaled(a.b, s.b, n);
    var d := RealSqDist(AsReal(a), m);
    assert d == er * er + eg * eg + eb * eb;
    assert er * nr == zr as real && eg * nr == zg as real && eb * nr == zb as real;
    SquaresScaled(er, eg, eb, nr);
    assert d * (nr * nr) == (zr as real) * (zr as real) + (zg as real) * (zg as real) + (zb as real) * (zb as real);
    CastSquares(zr, zg, zb);
    assert SqDist(Scaled(a, n), s) == zr * zr + zg * zg + zb * zb;
  }

  /** Near is exactly "the real Euclidean distance between a and the mean
      sum / count is below t", squared. */
  lemma NearIffMeanWithinThreshold(a: Rgb, target: Target, t: nat)
    requires target.count > 0
    ensures Near(a, target, t) <==> RealSqDist(AsReal(a), Mean(target)) < (t * t) as real
  {
    var n := target.count;
    var nr := n as real;
    ScaledDistance(a, target);
    ScaledCompare(RealSqDist(AsReal(a), Mean(target)), (t * t) as real, nr * nr);
    CastSquares(n, 0, 0);
    assert (n * n * (t * t)) as real == (n * n) as real * (t * t) as real;
  }

  lemma SquareMonotone(x: int, y: int)
    requires 0 <= x <= y
    ensures x * x <= y * y
  {
    assert x * x <= x * y;
    assert x * y <= y * y;
  }

  lemma HalfUnitSquare(e: int, n: int)
    requires n > 0 && 2 * Abs(e) <= n
    ensures 4 * (e * e) <= n * n
  {
    SquareMonotone(2 * Abs(e), n);
    assert e * e == Abs(e) * Abs(e);
  }

  lemma ThreeHalfUnitsBelowThreshold(er: int, eg: int, eb: int, n: int, t: nat)
    requires n > 0 && t >= 1
    requires 2 * Abs(er) <= n && 2 * Abs(eg) <= n && 2 * Abs(eb) <= n
    ensures er * er + eg * eg + eb * eb < n * n * (t * t)
  {
    HalfUnitSquare(er, n);
    HalfUnitSquare(eg, n);
    HalfUnitSquare(eb, n);
    assert n * n >= 1;
    SquareMonotone(1, t);
    assert n * n * 1 <= n * n * (t * t);
  }

  /** The face whose corners give the picked mean always matches that mean:
      its rounded average is within half a unit per channel of it, far inside
      any threshold of at least one unit. */
  lemma OwnFaceIsNear(cs: Face, t: nat)
    requires |cs| > 0 && t >= 1
    ensures Near(Average(cs), MeanOf(cs), t)
  {
    var n := |cs|;
    var avg, s := Average(cs), Sum(cs);
    AverageNearMean(cs);
    ThreeHalfUnitsBelowThreshold(n * avg.r - s.r, n * avg.g - s.g, n * avg.b - s.b, n, t);
  }
}
