/** Short Weierstrass curves y^2 = x^3 + b in affine coordinates. */
module CurveModel {
  import opened Algebra

  /** Affine coordinates of a curve point; Infinity is also the empty bucket. */
  datatype Coords<F> = Infinity | At(x: F, y: F)

  /** Coordinates of a base, which is never the identity (curves/src/msm.rs, Affine). */
  datatype Affine<F> = Affine(x: F, y: F)

  /** A curve: its base field, its group of points and the coordinate maps between them. */
  datatype Curve<!F, !G> = Curve(
    field: Field<F>,
    group: Group<G>,
    b: F,
    coords: G -> Coords<F>,
    fromXy: (F, F) -> G)

  predicate OnCurve<F(==)>(k: Field<F>, b: F, p: Coords<F>) {
    p.At? ==> k.Sq(p.y) == k.add(k.mul(k.Sq(p.x), p.x), b)
  }

  /** Third intersection, reflected, of the line of slope l through p and q. */
  function Through<F>(k: Field<F>, p: Coords<F>, q: Coords<F>, l: F): Coords<F>
    requires p.At? && q.At?
  {
    var x := k.Sub(k.Sq(l), k.add(p.x, q.x));
    At(x, k.Sub(k.mul(l, k.Sub(p.x, x)), p.y))
  }

  /** Chord-and-tangent addition for a = 0. */
  function ChordTangent<F(==)>(k: Field<F>, p: Coords<F>, q: Coords<F>): Coords<F> {
    if p.Infinity? then q
    else if q.Infinity? then p
    else if p.x != q.x then
      Through(k, p, q, k.mul(k.Sub(q.y, p.y), k.inv(k.Sub(q.x, p.x))))
    else if p.y != q.y || p.y == k.zero then Infinity
    else
      var xx := k.Sq(p.x);
      Through(k, p, q, k.mul(k.add(k.add(xx, xx), xx), k.inv(k.add(p.y, p.y))))
  }

  /** Coordinates identify the points of the curve, and the group adds by chord and tangent. */
  ghost predicate IsCurve<F(!new), G(!new)>(e: Curve<F, G>) {
    && IsField(e.field)
    && IsGroup(e.group)
    && e.field.add(e.field.one, e.field.one) != e.field.zero
    && e.coords(e.group.zero) == Infinity
    && (forall p: G {:trigger At1(p)} :: At1(p) ==> OnCurve(e.field, e.b, e.coords(p)))
    && (forall p: G, q: G {:trigger At2(p, q)} :: At2(p, q) ==>
          && (e.coords(p) == e.coords(q) ==> p == q)
          && e.coords(e.group.add(p, q)) == ChordTangent(e.field, e.coords(p), e.coords(q)))
    && (forall x: F, y: F {:trigger At2(x, y)} :: At2(x, y) && OnCurve(e.field, e.b, At(x, y)) ==>
          e.coords(e.fromXy(x, y)) == At(x, y))
  }

  /** The group element with the given coordinates. */
  function PointOf<F, G>(e: Curve<F, G>, c: Coords<F>): G {
    if c.Infinity? then e.group.zero else e.fromXy(c.x, c.y)
  }

  lemma PointOfCoords<F(!new), G(!new)>(e: Curve<F, G>, p: G)
    requires IsCurve(e)
    ensures PointOf(e, e.coords(p)) == p && OnCurve(e.field, e.b, e.coords(p))
  {
    assert At1(p);
    var c := e.coords(p);
    if c.At? {
      assert At2(c.x, c.y);
    }
    assert At2(PointOf(e, c), p);
  }

  lemma CoordsOfPoint<F(!new), G(!new)>(e: Curve<F, G>, c: Coords<F>)
    requires IsCurve(e) && OnCurve(e.field, e.b, c)
    ensures e.coords(PointOf(e, c)) == c
  {
    if c.At? {
      assert At2(c.x, c.y);
    }
  }

  /** Adding on-curve coordinates by chord and tangent is adding the points. */
  lemma AddCoords<F(!new), G(!new)>(e: Curve<F, G>, p: Coords<F>, q: Coords<F>)
    requires IsCurve(e) && OnCurve(e.field, e.b, p) && OnCurve(e.field, e.b, q)
    ensures OnCurve(e.field, e.b, ChordTangent(e.field, p, q))
    ensures PointOf(e, ChordTangent(e.field, p, q)) == e.group.add(PointOf(e, p), PointOf(e, q))
  {
    CoordsOfPoint(e, p);
    CoordsOfPoint(e, q);
    assert At2(PointOf(e, p), PointOf(e, q));
    PointOfCoords(e, e.group.add(PointOf(e, p), PointOf(e, q)));
  }

  function Opposite<F>(k: Field<F>, c: Coords<F>): Coords<F> {
    if c.Infinity? then c else At(c.x, k.neg(c.y))
  }

  lemma OppositeOnCurve<F(!new), G(!new)>(e: Curve<F, G>, c: Coords<F>)
    requires IsCurve(e) && OnCurve(e.field, e.b, c)
    ensures OnCurve(e.field, e.b, Opposite(e.field, c))
  {
    if c.At? {
      FSquareRoots(e.field, e.field.neg(c.y), c.y);
    }
  }

  /** Negating the y-coordinate negates the point. */
  lemma NegCoords<F(!new), G(!new)>(e: Curve<F, G>, c: Coords<F>)
    requires IsCurve(e) && OnCurve(e.field, e.b, c)
    ensures PointOf(e, Opposite(e.field, c)) == e.group.neg(PointOf(e, c))
  {
    var k := e.field;
    OppositeOnCurve(e, c);
    AddCoords(e, c, Opposite(k, c));
    if c.At? && c.y == k.neg(c.y) {
      // c.y == -c.y means 2 * c.y == 0, so c.y == 0
      FNeg(k, c.y);
      TwiceZero(k, c.y);
    }
    GNegUnique(e.group, PointOf(e, c), PointOf(e, Opposite(k, c)));
    GNegZero(e.group);
  }

  /** 2 * y vanishes only at zero when 2 is invertible. */
  lemma TwiceZero<F(!new)>(k: Field<F>, y: F)
    requires IsField(k) && k.add(k.one, k.one) != k.zero
    ensures k.add(y, y) == k.zero <==> y == k.zero
  {
    FDist(k, y, k.one, k.one);
    FOne(k, y);
    FNoZeroDivisors(k, y, k.add(k.one, k.one));
  }
}
