/** What chord-and-tangent addition computes, from the field laws alone: the line of the slope meets the curve
    at the two operands and at the reflection of the result, and nowhere else. */
module CurveLaw {
  import opened Algebra
  import opened CurveModel

  /** Run and rise of the line through two points that are not opposite: the chord, or the tangent if they agree. */
  function Run<F(==)>(k: Field<F>, p: Coords<F>, q: Coords<F>): F
    requires p.At? && q.At?
  {
    if p.x != q.x then k.Sub(q.x, p.x) else k.add(p.y, p.y)
  }

  function Rise<F(==)>(k: Field<F>, p: Coords<F>, q: Coords<F>): F
    requires p.At? && q.At?
  {
    if p.x != q.x then k.Sub(q.y, p.y)
    else k.add(k.add(k.mul(p.x, p.x), k.mul(p.x, p.x)), k.mul(p.x, p.x))
  }

  /** r is the sum of p and q: the identity is neutral, opposite points cancel, and otherwise the reflection of r
      is the third point of the curve on the line through p and q. No slope is computed. */
  ghost predicate IsSum<F(!new)>(k: Field<F>, b: F, p: Coords<F>, q: Coords<F>, r: Coords<F>) {
    if p.Infinity? then r == q
    else if q.Infinity? then r == p
    else if p.x == q.x && k.add(p.y, q.y) == k.zero then r == Infinity
    else
      && r.At? && OnCurve(k, b, r)
      && k.mul(k.Sub(k.neg(r.y), p.y), Run(k, p, q)) == k.mul(Rise(k, p, q), k.Sub(r.x, p.x))
      && k.mul(k.add(k.add(r.x, p.x), q.x), k.Sq(Run(k, p, q))) == k.Sq(Rise(k, p, q))
  }

  // ---------------------------------------------------------------- differences

  /** (a + b) - (c + d) == (a - c) + (b - d) */
  lemma SubOfSums<F(!new)>(k: Field<F>, a: F, b: F, c: F, d: F)
    requires IsField(k)
    ensures k.Sub(k.add(a, b), k.add(c, d)) == k.add(k.Sub(a, c), k.Sub(b, d))
  {
    GNegAdd(k.AddGroup(), c, d);
    GSwap(k.AddGroup(), a, b, k.neg(c), k.neg(d));
  }

  /** (a - b) + (b - c) == a - c */
  lemma Telescope<F(!new)>(k: Field<F>, a: F, b: F, c: F)
    requires IsField(k)
    ensures k.add(k.Sub(a, b), k.Sub(b, c)) == k.Sub(a, c)
  {
    FAddAssoc(k, a, k.neg(b), k.Sub(b, c));
    FAddAssoc(k, k.neg(b), b, k.neg(c));
    FNeg(k, b);
    FAddZero(k, k.neg(c));
  }

  /** (a - c) - (b - c) == a - b */
  lemma CancelSub<F(!new)>(k: Field<F>, a: F, b: F, c: F)
    requires IsField(k)
    ensures k.Sub(k.Sub(a, c), k.Sub(b, c)) == k.Sub(a, b)
  {
    Telescope(k, a, b, c);
    MoveOver(k, k.Sub(a, b), k.Sub(b, c), k.Sub(a, c));
  }

  // ---------------------------------------------------------------- the line and the curve

  /** (x + x1) * x + x1^2, the quotient of x^3 - x1^3 by x - x1 */
  ghost function CubeQuotient<F>(k: Field<F>, x1: F, x: F): F {
    k.add(k.mul(k.add(x, x1), x), k.Sq(x1))
  }

  lemma CubeDifference<F(!new)>(k: Field<F>, x1: F, x: F)
    requires IsField(k)
    ensures k.mul(k.Sub(x, x1), CubeQuotient(k, x1, x)) == k.Sub(k.mul(k.Sq(x), x), k.mul(k.Sq(x1), x1))
  {
    var s, x1x := k.Sub(x, x1), k.mul(k.Sq(x1), x);
    FDist(k, s, k.mul(k.add(x, x1), x), k.Sq(x1));
    FAssoc(k, s, k.add(x, x1), x);
    Conjugates(k, x, x1);
    SubTimes(k, k.Sq(x), k.Sq(x1), x);
    SubTimes(k, x, x1, k.Sq(x1));
    FComm(k, x, k.Sq(x1));
    FComm(k, x1, k.Sq(x1));
    Telescope(k, k.mul(k.Sq(x), x), x1x, k.mul(k.Sq(x1), x1));
  }

  /** The line of slope l through (x1, y1). */
  ghost function Line<F>(k: Field<F>, x1: F, y1: F, l: F, x: F): F {
    k.add(k.mul(l, k.Sub(x, x1)), y1)
  }

  /** l * (line + y1), the quotient of line^2 - y1^2 by x - x1 */
  ghost function LineQuotient<F>(k: Field<F>, x1: F, y1: F, l: F, x: F): F {
    k.mul(l, k.add(Line(k, x1, y1, l, x), y1))
  }

  lemma LineDifference<F(!new)>(k: Field<F>, x1: F, y1: F, l: F, x: F)
    requires IsField(k)
    ensures k.mul(k.Sub(x, x1), LineQuotient(k, x1, y1, l, x)) == k.Sub(k.Sq(Line(k, x1, y1, l, x)), k.Sq(y1))
  {
    var s, w := k.Sub(x, x1), Line(k, x1, y1, l, x);
    Conjugates(k, w, y1);
    MoveOver(k, k.mul(l, s), y1, w);
    FAssoc(k, s, l, k.add(w, y1));
    FComm(k, s, l);
  }

  /** x^3 + b - line(x)^2 */
  ghost function Gap<F>(k: Field<F>, b: F, x1: F, y1: F, l: F, x: F): F {
    k.Sub(k.add(k.mul(k.Sq(x), x), b), k.Sq(Line(k, x1, y1, l, x)))
  }

  /** Through a point of the curve, the gap is a multiple of x - x1. */
  lemma GapFactors<F(!new)>(k: Field<F>, b: F, x1: F, y1: F, l: F, x: F)
    requires IsField(k) && OnCurve(k, b, At(x1, y1))
    ensures Gap(k, b, x1, y1, l, x) == k.mul(k.Sub(x, x1), k.Sub(CubeQuotient(k, x1, x), LineQuotient(k, x1, y1, l, x)))
  {
    var s, h, j := k.Sub(x, x1), CubeQuotient(k, x1, x), LineQuotient(k, x1, y1, l, x);
    var c, c1, w := k.mul(k.Sq(x), x), k.mul(k.Sq(x1), x1), Line(k, x1, y1, l, x);
    SubTimes(k, h, j, s);
    CubeDifference(k, x1, x);
    LineDifference(k, x1, y1, l, x);
    // (c - c1) - (w^2 - y1^2) == ((c + b) - (c1 + b)) - (w^2 - y1^2)
    SubOfSums(k, c, b, c1, b);
    FNeg(k, b);
    FAddZero(k, k.Sub(c, c1));
    CancelSub(k, k.add(c, b), k.Sq(w), k.Sq(y1));
  }

  /** The two quotients grow by (x - x2) * (x + x2 + x1) and l^2 * (x - x2) from x2 to x. */
  lemma QuotientsGrow<F(!new)>(k: Field<F>, x1: F, y1: F, l: F, x2: F, x: F)
    requires IsField(k)
    ensures k.Sub(CubeQuotient(k, x1, x), CubeQuotient(k, x1, x2)) == k.mul(k.Sub(x, x2), k.add(k.add(x, x2), x1))
    ensures k.Sub(LineQuotient(k, x1, y1, l, x), LineQuotient(k, x1, y1, l, x2)) == k.mul(k.Sub(x, x2), k.Sq(l))
  {
    var d := k.Sub(x, x2);
    CubeQuotientGrows(k, x1, x2, x);
    var w, w2 := Line(k, x1, y1, l, x), Line(k, x1, y1, l, x2);
    // w - w2 == l*x - l*x2
    SubOfSums(k, k.mul(l, k.Sub(x, x1)), y1, k.mul(l, k.Sub(x2, x1)), y1);
    FNeg(k, y1);
    SubTimes(k, k.Sub(x, x1), k.Sub(x2, x1), l);
    CancelSub(k, x, x2, x1);
    FAddZero(k, k.mul(l, d));
    SubOfSums(k, w, y1, w2, y1);
    SubTimes(k, k.add(w, y1), k.add(w2, y1), l);
    FAssoc(k, l, l, d);
    FComm(k, k.Sq(l), d);
  }

  lemma CubeQuotientGrows<F(!new)>(k: Field<F>, x1: F, x2: F, x: F)
    requires IsField(k)
    ensures k.Sub(CubeQuotient(k, x1, x), CubeQuotient(k, x1, x2)) == k.mul(k.Sub(x, x2), k.add(k.add(x, x2), x1))
  {
    var d := k.Sub(x, x2);
    SubOfSums(k, k.mul(k.add(x, x1), x), k.Sq(x1), k.mul(k.add(x2, x1), x2), k.Sq(x1));
    FNeg(k, k.Sq(x1));
    FAddZero(k, k.Sub(k.mul(k.add(x, x1), x), k.mul(k.add(x2, x1), x2)));
    FDist(k, x, x, x1);
    FDist(k, x2, x2, x1);
    SubOfSums(k, k.Sq(x), k.mul(x1, x), k.Sq(x2), k.mul(x1, x2));
    Conjugates(k, x, x2);
    SubTimes(k, x, x2, x1);
    FComm(k, d, x1);
    FDist(k, d, k.add(x, x2), x1);
  }

  /** The abscissa x3 that Through computes: x - x3 == (x + x2 + x1) - l^2. */
  lemma ThirdAbscissa<F(!new)>(k: Field<F>, x1: F, x2: F, x3: F, l: F, x: F)
    requires IsField(k) && k.add(k.add(x3, x1), x2) == k.Sq(l)
    ensures k.Sub(k.add(k.add(x, x2), x1), k.Sq(l)) == k.Sub(x, x3)
  {
    FAddAssoc(k, x, x2, x1);
    FAddAssoc(k, x3, x1, x2);
    FAddComm(k, x2, x1);
    var s := k.add(x1, x2);
    SubOfSums(k, x, s, x3, s);
    FNeg(k, s);
    FAddZero(k, k.Sub(x, x3));
  }

  /** The line through p and q meets the curve exactly at their abscissas and at x3, with multiplicity:
      x^3 + b - line(x)^2 == (x - x1) * ((x - x2) * (x - x3)) for every x. */
  lemma LineMeetsCurve<F(!new)>(k: Field<F>, b: F, x1: F, y1: F, l: F, x2: F, x3: F, x: F)
    requires IsField(k) && OnCurve(k, b, At(x1, y1)) && k.add(k.add(x3, x1), x2) == k.Sq(l)
    requires CubeQuotient(k, x1, x2) == LineQuotient(k, x1, y1, l, x2)
    ensures Gap(k, b, x1, y1, l, x) == k.mul(k.Sub(x, x1), k.mul(k.Sub(x, x2), k.Sub(x, x3)))
  {
    var h, h2, j := CubeQuotient(k, x1, x), CubeQuotient(k, x1, x2), LineQuotient(k, x1, y1, l, x);
    var d, t := k.Sub(x, x2), k.add(k.add(x, x2), x1);
    GapFactors(k, b, x1, y1, l, x);
    QuotientsGrow(k, x1, y1, l, x2, x);
    hide CubeQuotient, LineQuotient, Gap;
    CancelSub(k, h, j, h2);
    SubTimes(k, t, k.Sq(l), d);
    ThirdAbscissa(k, x1, x2, x3, l, x);
  }

  // ---------------------------------------------------------------- chord and tangent

  /** Both operands lie on the line, the second with multiplicity two if it is the first. */
  lemma SecondRoot<F(!new)>(k: Field<F>, b: F, p: Coords<F>, q: Coords<F>, l: F)
    requires IsField(k) && p.At? && q.At? && OnCurve(k, b, p) && OnCurve(k, b, q)
    requires p.x == q.x ==> p.y == q.y
    requires k.mul(l, Run(k, p, q)) == Rise(k, p, q)
    ensures CubeQuotient(k, p.x, q.x) == LineQuotient(k, p.x, p.y, l, q.x)
  {
    var h, j := CubeQuotient(k, p.x, q.x), LineQuotient(k, p.x, p.y, l, q.x);
    FNeg(k, p.x);
    if p.x != q.x {
      MoveOver(k, q.y, k.neg(p.y), k.Sub(q.y, p.y));
      FNeg(k, p.y);
      assert Line(k, p.x, p.y, l, q.x) == q.y;
      GapFactors(k, b, p.x, p.y, l, q.x);
      FSubZero(k, k.Sq(q.y), k.Sq(q.y));
      FNoZeroDivisors(k, k.Sub(q.x, p.x), k.Sub(h, j));
      FSubZero(k, q.x, p.x);
      FSubZero(k, h, j);
    } else {
      FMulZero(k, l);
      FAddZero(k, p.y);
      assert Line(k, p.x, p.y, l, p.x) == p.y;
      FDist(k, p.x, p.x, p.x);
    }
  }

  /** Through gives a point of the curve whose reflection is on the line. */
  lemma ThroughLaw<F(!new)>(k: Field<F>, b: F, p: Coords<F>, q: Coords<F>, l: F)
    requires IsField(k) && p.At? && q.At? && OnCurve(k, b, p) && OnCurve(k, b, q)
    requires p.x == q.x ==> p.y == q.y
    requires k.mul(l, Run(k, p, q)) == Rise(k, p, q)
    ensures var r := Through(k, p, q, l);
            && r.At? && OnCurve(k, b, r)
            && k.add(k.add(r.x, p.x), q.x) == k.Sq(l)
            && k.neg(r.y) == Line(k, p.x, p.y, l, r.x)
  {
    var r, g := Through(k, p, q, l), k.AddGroup();
    FAddAssoc(k, r.x, p.x, q.x);
    MoveOver(k, r.x, k.add(p.x, q.x), k.Sq(l));
    // -(l*(x1 - x3) - y1) == l*(x3 - x1) + y1
    var s := k.Sub(p.x, r.x);
    GNegAdd(g, p.x, k.neg(r.x));
    FNeg(k, r.x);
    FAddComm(k, k.neg(p.x), r.x);
    FMulNeg(k, l, s);
    GNegAdd(g, k.mul(l, s), k.neg(p.y));
    FNeg(k, p.y);
    SecondRoot(k, b, p, q, l);
    LineMeetsCurve(k, b, p.x, p.y, l, q.x, r.x, r.x);
    FSubZero(k, r.x, r.x);
    FMulZero(k, k.Sub(r.x, q.x));
    FMulZero(k, k.Sub(r.x, p.x));
    FSubZero(k, k.add(k.mul(k.Sq(r.x), r.x), b), k.Sq(k.neg(r.y)));
    FSquareRoots(k, k.neg(r.y), r.y);
  }

  /** The same without the slope. */
  lemma ThroughIsSum<F(!new)>(k: Field<F>, b: F, p: Coords<F>, q: Coords<F>, l: F)
    requires IsField(k) && p.At? && q.At? && OnCurve(k, b, p) && OnCurve(k, b, q)
    requires p.x == q.x ==> p.y == q.y
    requires p.x == q.x ==> k.add(p.y, q.y) != k.zero
    requires k.mul(l, Run(k, p, q)) == Rise(k, p, q)
    ensures IsSum(k, b, p, q, Through(k, p, q, l))
  {
    var r, run, rise := Through(k, p, q, l), Run(k, p, q), Rise(k, p, q);
    ThroughLaw(k, b, p, q, l);
    hide Through, Run, Rise, OnCurve;
    var s := k.Sub(r.x, p.x);
    MoveOver(k, k.mul(l, s), p.y, k.neg(r.y));
    FAssoc(k, l, s, run);
    FComm(k, s, run);
    FAssoc(k, l, run, s);
    FSwap(k, l, l, run, run);
  }

  /** Chord-and-tangent addition of two points of the curve is their sum. */
  lemma ChordTangentIsSum<F(!new)>(k: Field<F>, b: F, p: Coords<F>, q: Coords<F>)
    requires IsField(k) && k.add(k.one, k.one) != k.zero && OnCurve(k, b, p) && OnCurve(k, b, q)
    ensures IsSum(k, b, p, q, ChordTangent(k, p, q))
  {
    if p.At? && q.At? {
      FSquareRoots(k, p.y, q.y);
      FNeg(k, q.y);
      TwiceZero(k, p.y);
      if p.x == q.x && k.add(p.y, q.y) == k.zero {
        Cancels(k, p, q);
      } else {
        if p.x == q.x {
          assert p.y == q.y;
        } else {
          FSubZero(k, q.x, p.x);
        }
        var run, rise := Run(k, p, q), Rise(k, p, q);
        FAssoc(k, rise, k.inv(run), run);
        FInv(k, run);
        FOne(k, rise);
        ThroughIsSum(k, b, p, q, k.mul(rise, k.inv(run)));
      }
    }
  }

  lemma Cancels<F(!new)>(k: Field<F>, p: Coords<F>, q: Coords<F>)
    requires IsField(k) && k.add(k.one, k.one) != k.zero && p.At? && q.At?
    requires p.x == q.x && k.add(p.y, q.y) == k.zero
    ensures ChordTangent(k, p, q) == Infinity
  {
    TwiceZero(k, p.y);
  }

  /** The sum is determined. */
  lemma SumIsUnique<F(!new)>(k: Field<F>, b: F, p: Coords<F>, q: Coords<F>, r: Coords<F>, r': Coords<F>)
    requires IsField(k) && k.add(k.one, k.one) != k.zero && OnCurve(k, b, p) && OnCurve(k, b, q)
    requires IsSum(k, b, p, q, r) && IsSum(k, b, p, q, r')
    ensures r == r'
  {
    if p.At? && q.At? && !(p.x == q.x && k.add(p.y, q.y) == k.zero) {
      FSquareRoots(k, p.y, q.y);
      FNeg(k, q.y);
      TwiceZero(k, p.y);
      FSubZero(k, q.x, p.x);
      var run, g := Run(k, p, q), k.AddGroup();
      assert run != k.zero;
      FNoZeroDivisors(k, run, run);
      FCancel(k, k.add(k.add(r.x, p.x), q.x), k.add(k.add(r'.x, p.x), q.x), k.Sq(run));
      GCancel(g, k.add(r.x, p.x), k.add(r'.x, p.x), q.x);
      GCancel(g, r.x, r'.x, p.x);
      FCancel(k, k.Sub(k.neg(r.y), p.y), k.Sub(k.neg(r'.y), p.y), run);
      GCancel(g, k.neg(r.y), k.neg(r'.y), k.neg(p.y));
      FNeg(k, r.y);
      FNeg(k, r'.y);
    }
  }
}
