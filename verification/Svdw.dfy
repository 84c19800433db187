/** The Shallue-van de Woestijne map (curves/src/hash_to_curve.rs, svdw_precomputed_constants and
    svdw_map_to_curve) against section 6.6.1 of RFC 9380. */
module Svdw {
  import opened Algebra
  import opened Wrappers
  import opened Sswu

  function Two<F>(k: Field<F>): F { k.add(k.one, k.one) }

  function Three<F>(k: Field<F>): F { k.add(k.add(k.one, k.one), k.one) }

  function Four<F>(k: Field<F>): F { k.add(Three(k), k.one) }

  /** 3*Z^2 + 4*A */
  function Slope<F>(c: Setting<F>): F {
    c.k.add(c.k.mul(Three(c.k), c.k.Sq(c.z)), c.k.mul(Four(c.k), c.a))
  }

  /** The same without the constants three and four. */
  lemma SlopeMeaning<F(!new)>(c: Setting<F>)
    requires IsField(c.k)
    ensures var k, zz := c.k, c.k.mul(c.z, c.z);
            Slope(c) == k.add(k.add(k.add(zz, zz), zz), k.add(k.add(k.add(c.a, c.a), c.a), c.a))
  {
    var k, zz := c.k, c.k.Sq(c.z);
    FDist(k, zz, k.add(k.one, k.one), k.one);
    FDist(k, zz, k.one, k.one);
    FOne(k, zz);
    FDist(k, c.a, Three(k), k.one);
    FDist(k, c.a, k.add(k.one, k.one), k.one);
    FDist(k, c.a, k.one, k.one);
    FOne(k, c.a);
  }

  datatype Constants<F> = Constants(c1: F, c2: F, c3: F, c4: F)

  /** Fails when a square root or an inverse does not exist. */
  function Precomputed<F(==)>(c: Setting<F>, half: F): Option<Constants<F>> {
    var k := c.k;
    var c1 := k.add(k.mul(k.add(k.Sq(c.z), c.a), c.z), c.b);
    var root := c.sqrt(k.mul(k.neg(c1), Slope(c)));
    if root.None? || Slope(c) == k.zero then None
    else
      var c3 := if c.isOdd(root.value) then k.neg(root.value) else root.value;
      Some(Constants(c1, k.mul(k.neg(c.z), half), c3, k.mul(k.mul(k.neg(Four(k)), c1), k.inv(Slope(c)))))
  }

  /** The three candidates for x. */
  function Candidates<F(==)>(c: Setting<F>, cs: Constants<F>, u: F): (F, F, F) {
    var k := c.k;
    var t := k.mul(k.Sq(u), cs.c1);
    var tv2 := k.add(k.one, t);
    var tv1 := k.Sub(k.one, t);
    var tv3 := Inv0(k, k.mul(tv1, tv2));
    var tv4 := k.mul(k.mul(k.mul(u, tv1), tv3), cs.c3);
    (k.Sub(cs.c2, tv4), k.add(cs.c2, tv4), k.add(k.mul(k.Sq(k.mul(k.Sq(tv2), tv3)), cs.c4), c.z))
  }

  /** The affine point for u; None if a square root fails or the point is not on the curve. */
  function MapToCurveSvdw<F(==)>(c: Setting<F>, cs: Constants<F>, u: F): Option<(F, F)> {
    var k := c.k;
    var (x1, x2, x3) := Candidates(c, cs, u);
    var e1 := c.sqrt(CurveRhs(c, x1)).Some?;
    var e2 := c.sqrt(CurveRhs(c, x2)).Some? && !e1;
    var x := if e2 then x2 else if e1 then x1 else x3;
    var y := c.sqrt(CurveRhs(c, x));
    if y.None? then None
    else
      var y' := if c.isOdd(u) == c.isOdd(y.value) then y.value else k.neg(y.value);
      if k.Sq(y') != CurveRhs(c, x) then None else Some((x, y'))
  }

  /** What the map requires: 2 is invertible, g(Z) and 3*Z^2 + 4*A are not zero, minus their product is a
      square, and g(Z) or g(-Z/2) is a square. */
  ghost predicate SuitableSvdw<F(!new)>(c: Setting<F>, half: F) {
    && RootsAndSigns(c) && c.k.add(half, half) == c.k.one
    && CurveRhs(c, c.z) != c.k.zero && Slope(c) != c.k.zero
    && IsSquare(c.k, c.k.mul(c.k.neg(CurveRhs(c, c.z)), Slope(c)))
    && (IsSquare(c.k, CurveRhs(c, c.z)) || IsSquare(c.k, CurveRhs(c, c.k.mul(c.k.neg(c.z), half))))
  }

  // ---------------------------------------------------------------- small identities

  /** The quotient of g(x) - g(z) by x - z. */
  ghost function Slant<F>(c: Setting<F>, x: F): F {
    c.k.add(c.k.mul(x, c.k.add(x, c.z)), c.k.add(c.k.Sq(c.z), c.a))
  }

  /** x^2 + A + z*(x + z) == x*(x + z) + (z^2 + A) */
  lemma Inside<F(!new)>(c: Setting<F>, x: F)
    requires IsField(c.k)
    ensures c.k.add(c.k.add(c.k.Sq(x), c.a), c.k.mul(c.z, c.k.add(x, c.z))) == Slant(c, x)
  {
    var k, z := c.k, c.z;
    FDist(k, z, x, z);
    FDist(k, x, x, z);
    FComm(k, z, x);
    var xz := k.mul(x, z);
    // (xx + A) + (xz + zz) == (xx + xz) + (A + zz)
    GSwap(k.AddGroup(), k.Sq(x), c.a, xz, k.Sq(z));
    FAddComm(k, c.a, k.Sq(z));
  }

  /** g(x) + z*P == g(z) + x*P for P the quotient of g(x) - g(z) by x - z */
  lemma Factor<F(!new)>(c: Setting<F>, x: F)
    requires IsField(c.k)
    ensures c.k.add(CurveRhs(c, x), c.k.mul(c.z, Slant(c, x))) == c.k.add(CurveRhs(c, c.z), c.k.mul(x, Slant(c, x)))
  {
    var k, z := c.k, c.z;
    var p, w, y, l := Slant(c, x), k.add(k.Sq(z), c.a), k.add(x, z), k.add(k.Sq(x), c.a);
    var zw := k.mul(z, w);
    Inside(c, x);
    // x*P == l*x + x*(z*y) and z*P == z*(x*y) + z*w
    FDist(k, x, l, k.mul(z, y));
    FComm(k, x, l);
    FDist(k, z, k.mul(x, y), w);
    FAssoc(k, z, x, y);
    FComm(k, z, x);
    FAssoc(k, x, z, y);
    var lx, r := k.mul(l, x), k.mul(x, k.mul(z, y));
    // (lx + B) + (r + zw) == (wz + B) + (lx + r)
    FComm(k, w, z);
    var g := k.AddGroup();
    GAssoc(g, lx, c.b, k.add(r, zw));
    GAssoc(g, k.add(zw, c.b), lx, r);
    GComm(g, k.add(zw, c.b), lx);
    GAssoc(g, lx, k.add(zw, c.b), r);
    GComm(g, zw, c.b);
    GAssoc(g, c.b, zw, r);
    GComm(g, zw, r);
  }

  // ---------------------------------------------------------------- two candidates that sum to -z

  /** m == z^2 + A - x1*x2 */
  ghost function Middle<F>(c: Setting<F>, x1: F, x2: F): F {
    c.k.add(c.k.neg(c.k.mul(x1, x2)), c.k.add(c.k.Sq(c.z), c.a))
  }

  lemma SlantIsMiddle<F(!new)>(c: Setting<F>, x1: F, x2: F)
    requires IsField(c.k) && c.k.add(x1, x2) == c.k.neg(c.z)
    ensures c.k.add(x1, c.z) == c.k.neg(x2) && Slant(c, x1) == Middle(c, x1, x2)
  {
    var k := c.k;
    var g := k.AddGroup();
    // x2 + (x1 + z) == -z + z == 0
    GComm(g, x1, x2);
    GAssoc(g, x2, x1, c.z);
    FNeg(k, c.z);
    GNegUnique(g, x2, k.add(x1, c.z));
    FMulNeg(k, x1, x2);
  }

  /** g(x1) == (x1 - x3) * m when (z - x3) * m == g(z) */
  lemma FirstTwo<F(!new)>(c: Setting<F>, x1: F, x2: F, x3: F)
    requires IsField(c.k) && c.k.add(x1, x2) == c.k.neg(c.z)
    requires c.k.mul(c.k.Sub(c.z, x3), Middle(c, x1, x2)) == CurveRhs(c, c.z)
    ensures CurveRhs(c, x1) == c.k.mul(c.k.Sub(x1, x3), Middle(c, x1, x2))
  {
    var k := c.k;
    var g, m, gz := k.AddGroup(), Middle(c, x1, x2), CurveRhs(c, c.z);
    var zm, x3m, x1m := k.mul(c.z, m), k.mul(x3, m), k.mul(x1, m);
    SlantIsMiddle(c, x1, x2);
    Factor(c, x1);
    SubTimes(k, c.z, x3, m);
    MoveOver(k, gz, x3m, zm);
    // g(x1) + (gz + x3m) == gz + x1m, so g(x1) + x3m == x1m
    var g1 := CurveRhs(c, x1);
    FAddComm(k, gz, x3m);
    FAddAssoc(k, g1, x3m, gz);
    FAddComm(k, gz, x1m);
    GCancel(g, k.add(g1, x3m), x1m, gz);
    MoveOver(k, g1, x3m, x1m);
    SubTimes(k, x1, x3, m);
  }

  /** (x1 - x3) * (x2 - x3) == x1*x2 + x3*(x3 + z) */
  lemma Spread<F(!new)>(c: Setting<F>, x1: F, x2: F, x3: F)
    requires IsField(c.k) && c.k.add(x1, x2) == c.k.neg(c.z)
    ensures c.k.mul(c.k.Sub(x1, x3), c.k.Sub(x2, x3)) == c.k.add(c.k.mul(x1, x2), c.k.mul(x3, c.k.add(x3, c.z)))
  {
    var k := c.k;
    var g, n3 := k.AddGroup(), k.neg(x3);
    // (x1 - x3)(x2 - x3) == (x1 x2 - x3 x2) - (x1 x3 - x3 x3)
    FDist(k, k.add(x1, n3), x2, n3);
    FDist(k, x2, x1, n3);
    FDist(k, n3, x1, n3);
    FMulNeg(k, x3, x2);
    FMulNeg(k, n3, x3);
    FMulNeg(k, x3, x3);
    FNeg(k, k.Sq(x3));
    // x1*n3 + n3*x2 == n3 * (x1 + x2) == n3 * -z == x3 * z
    FComm(k, x1, n3);
    FComm(k, n3, x2);
    FDist(k, n3, x2, x1);
    FAddComm(k, x1, x2);
    FMulNeg(k, n3, c.z);
    FMulNeg(k, x3, c.z);
    FNeg(k, k.mul(x3, c.z));
    var p, q, r, t := k.mul(x1, x2), k.mul(n3, x2), k.mul(n3, x1), k.Sq(x3);
    GAssoc(g, p, q, k.add(r, t));
    GAssoc(g, q, r, t);
    FDist(k, x3, x3, c.z);
    FAddComm(k, k.mul(x3, c.z), t);
  }

  /** m * g(x3) == -g(z) * (x1 - x3) * (x2 - x3) */
  lemma Third<F(!new)>(c: Setting<F>, x1: F, x2: F, x3: F)
    requires IsField(c.k) && c.k.add(x1, x2) == c.k.neg(c.z)
    requires c.k.mul(c.k.Sub(c.z, x3), Middle(c, x1, x2)) == CurveRhs(c, c.z)
    ensures c.k.mul(Middle(c, x1, x2), CurveRhs(c, x3)) ==
            c.k.mul(c.k.neg(CurveRhs(c, c.z)), c.k.mul(c.k.Sub(x1, x3), c.k.Sub(x2, x3)))
  {
    var k := c.k;
    var g, m, p3, gz, g3 := k.AddGroup(), Middle(c, x1, x2), Slant(c, x3), CurveRhs(c, c.z), CurveRhs(c, x3);
    var d, e := k.Sub(c.z, x3), k.mul(k.Sub(x1, x3), k.Sub(x2, x3));
    // g3 + d*P3 == gz
    Factor(c, x3);
    SubTimes(k, c.z, x3, p3);
    var zp, xp := k.mul(c.z, p3), k.mul(x3, p3);
    MoveOver(k, gz, xp, k.add(g3, zp));
    FAddAssoc(k, g3, zp, k.neg(xp));
    assert k.add(g3, k.mul(d, p3)) == gz;
    // P3 == m + e, so d*P3 == gz + d*e and g3 + d*e == 0
    Spread(c, x1, x2, x3);
    MiddlePlus(c, x1, x2, x3);
    FDist(k, d, m, e);
    var de := k.mul(d, e);
    FAddComm(k, gz, de);
    FAddAssoc(k, g3, de, gz);
    FAddZero(k, gz);
    GCancel(g, k.add(g3, de), k.zero, gz);
    FAddComm(k, g3, de);
    GNegUnique(g, de, g3);
    // m * -(d*e) == -((d*m)*e)
    FMulNeg(k, m, de);
    FAssoc(k, m, d, e);
    FComm(k, m, d);
    FMulNeg(k, gz, e);
  }

  /** P(x3) == m + (x1*x2 + x3*(x3 + z)) */
  lemma MiddlePlus<F(!new)>(c: Setting<F>, x1: F, x2: F, x3: F)
    requires IsField(c.k)
    ensures Slant(c, x3) ==
            c.k.add(Middle(c, x1, x2), c.k.add(c.k.mul(x1, x2), c.k.mul(x3, c.k.add(x3, c.z))))
  {
    var k := c.k;
    var g, p, w, q := k.AddGroup(), k.mul(x1, x2), k.add(k.Sq(c.z), c.a), k.mul(x3, k.add(x3, c.z));
    GSwap(g, k.neg(p), w, p, q);
    FNeg(k, p);
    FAddZero(k, k.add(w, q));
    FAddComm(k, w, q);
  }

  /** If -g(z)*m is a square, one of the three right-hand sides is a square. */
  lemma OneIsSquare<F(!new)>(c: Setting<F>, x1: F, x2: F, x3: F)
    requires RootsAndSigns(c) && c.k.add(x1, x2) == c.k.neg(c.z) && Middle(c, x1, x2) != c.k.zero
    requires c.k.mul(c.k.Sub(c.z, x3), Middle(c, x1, x2)) == CurveRhs(c, c.z)
    requires IsSquare(c.k, c.k.mul(c.k.neg(CurveRhs(c, c.z)), Middle(c, x1, x2)))
    ensures IsSquare(c.k, CurveRhs(c, x1)) || IsSquare(c.k, CurveRhs(c, x2)) || IsSquare(c.k, CurveRhs(c, x3))
  {
    var k := c.k;
    var m, g1, g2, g3, n := Middle(c, x1, x2), CurveRhs(c, x1), CurveRhs(c, x2), CurveRhs(c, x3), k.neg(CurveRhs(c, c.z));
    var e := k.mul(k.Sub(x1, x3), k.Sub(x2, x3));
    if !IsSquare(k, g1) && !IsSquare(k, g2) {
      assert At2(g1, g2);
      FirstTwo(c, x1, x2, x3);
      FComm(k, x1, x2);
      FAddComm(k, x1, x2);
      FirstTwo(c, x2, x1, x3);
      FSwap(k, k.Sub(x1, x3), m, k.Sub(x2, x3), m);
      FComm(k, e, k.Sq(m));
      FNoZeroDivisors(k, m, m);
      var r: F :| k.Sq(r) == k.mul(g1, g2);
      SquareQuotient(k, k.Sq(m), e, m, r);
      // m^2 * g3 == (n * m) * e
      Third(c, x1, x2, x3);
      FAssoc(k, m, m, g3);
      FAssoc(k, m, n, e);
      FComm(k, m, n);
      var s: F :| k.Sq(s) == k.mul(n, m);
      var t: F :| k.Sq(t) == e;
      PowerProduct(k, s, t);
      SquareQuotient(k, k.Sq(m), g3, m, k.mul(s, t));
    }
  }

  // ---------------------------------------------------------------- the middle value

  lemma FourFacts<F(!new)>(k: Field<F>, x: F)
    requires IsField(k)
    ensures Four(k) == k.Sq(Two(k)) && k.add(x, x) == k.mul(Two(k), x)
    ensures k.mul(Four(k), k.Sq(x)) == k.Sq(k.add(x, x))
    ensures k.mul(Four(k), x) == k.add(k.mul(Three(k), x), x)
  {
    var two := Two(k);
    FDist(k, two, k.one, k.one);
    FOne(k, two);
    FAddAssoc(k, two, k.one, k.one);
    FDist(k, x, k.one, k.one);
    FOne(k, x);
    PowerProduct(k, two, x);
    FDist(k, x, Three(k), k.one);
  }

  /** x1 = c2 - v and x2 = c2 + v sum to -z, and 4*m == (3*z^2 + 4*A) + 4*v^2. */
  lemma Centre<F(!new)>(c: Setting<F>, half: F, c2: F, v: F)
    requires IsField(c.k) && c.k.add(half, half) == c.k.one && c2 == c.k.mul(c.k.neg(c.z), half)
    ensures c.k.add(c.k.Sub(c2, v), c.k.add(c2, v)) == c.k.neg(c.z)
    ensures c.k.mul(Four(c.k), Middle(c, c.k.Sub(c2, v), c.k.add(c2, v))) ==
            c.k.add(c.k.mul(Four(c.k), c.k.Sq(v)), Slope(c))
  {
    var k := c.k;
    var g, f, zz := k.AddGroup(), Four(k), k.Sq(c.z);
    FDist(k, k.neg(c.z), half, half);
    FOne(k, k.neg(c.z));
    assert k.add(c2, c2) == k.neg(c.z);
    GSwap(g, c2, k.neg(v), c2, v);
    FNeg(k, v);
    FAddZero(k, k.neg(c.z));
    // m == (v^2 - c2^2) + (z^2 + A)
    Conjugates(k, c2, v);
    var vv, cc, w := k.Sq(v), k.Sq(c2), k.add(zz, c.a);
    GNegAdd(g, cc, k.neg(vv));
    GNegNeg(g, vv);
    FAddComm(k, k.neg(cc), vv);
    var m := Middle(c, k.Sub(c2, v), k.add(c2, v));
    assert m == k.add(k.Sub(vv, cc), w);
    // 4*c2^2 == z^2
    FourFacts(k, c2);
    FMulNeg(k, k.neg(c.z), c.z);
    FMulNeg(k, c.z, c.z);
    FNeg(k, zz);
    assert k.mul(f, cc) == zz;
    // 4*m == (4*v^2 - z^2) + ((3*z^2 + z^2) + 4*A)
    FDist(k, f, k.Sub(vv, cc), w);
    SubTimes(k, vv, cc, f);
    FDist(k, f, zz, c.a);
    FourFacts(k, zz);
    var fv, tz, fa := k.mul(f, vv), k.mul(Three(k), zz), k.mul(f, c.a);
    FAddComm(k, tz, zz);
    FAddAssoc(k, zz, tz, fa);
    GAssoc(g, fv, k.neg(zz), k.add(zz, Slope(c)));
    GAssoc(g, k.neg(zz), zz, Slope(c));
    FAddZero(k, Slope(c));
  }

  /** (1 + t)^2 == (1 - t)^2 + 4*t */
  lemma Squares<F(!new)>(k: Field<F>, t: F)
    requires IsField(k)
    ensures k.Sq(k.add(k.one, t)) == k.add(k.Sq(k.Sub(k.one, t)), k.mul(Four(k), t))
  {
    var g, n, d := k.AddGroup(), k.add(k.one, t), k.Sub(k.one, t);
    Conjugates(k, n, d);
    // n - d == t + t and n + d == 1 + 1
    GNegAdd(g, k.one, k.neg(t));
    GNegNeg(g, t);
    GSwap(g, k.one, t, k.neg(k.one), t);
    FNeg(k, k.one);
    FAddZero(k, k.add(t, t));
    GSwap(g, k.one, t, k.one, k.neg(t));
    FNeg(k, t);
    FAddZero(k, Two(k));
    FourFacts(k, t);
    // (2 t) * 2 == 4 t
    FComm(k, k.mul(Two(k), t), Two(k));
    FAssoc(k, Two(k), Two(k), t);
    MoveOver(k, k.mul(Four(k), t), k.Sq(d), k.Sq(n));
    FAddComm(k, k.mul(Four(k), t), k.Sq(d));
  }

  /** v * n == u * c3, so v^2 * n^2 == -(t * h) for c3^2 == -g*h and t == u^2 * g. */
  lemma Offset<F(!new)>(k: Field<F>, u: F, g: F, h: F, c3: F, d: F, n: F, v: F, t: F)
    requires IsField(k) && k.mul(d, n) != k.zero && k.Sq(c3) == k.mul(k.neg(g), h) && t == k.mul(k.Sq(u), g)
    requires v == k.mul(k.mul(k.mul(u, d), k.inv(k.mul(d, n))), c3)
    ensures k.mul(k.Sq(v), k.Sq(n)) == k.neg(k.mul(t, h))
  {
    var i := k.inv(k.mul(d, n));
    FAssoc(k, u, d, i);
    FAssoc(k, k.mul(u, k.mul(d, i)), c3, n);
    FSwap(k, u, k.mul(d, i), c3, n);
    // (d*i)*n == 1
    FAssoc(k, d, i, n);
    FComm(k, i, n);
    FAssoc(k, d, n, i);
    FInv(k, k.mul(d, n));
    FOne(k, k.mul(u, c3));
    assert k.mul(v, n) == k.mul(u, c3);
    PowerProduct(k, v, n);
    PowerProduct(k, u, c3);
    FMulNeg(k, g, h);
    FMulNeg(k, k.Sq(u), k.mul(g, h));
    FAssoc(k, k.Sq(u), g, h);
  }

  /** 4*m * n^2 == h * d^2 */
  lemma MiddleRatio<F(!new)>(k: Field<F>, m: F, h: F, v: F, n: F, d: F, t: F)
    requires IsField(k) && k.mul(Four(k), m) == k.add(k.mul(Four(k), k.Sq(v)), h)
    requires n == k.add(k.one, t) && d == k.Sub(k.one, t) && k.mul(k.Sq(v), k.Sq(n)) == k.neg(k.mul(t, h))
    ensures k.mul(k.mul(Four(k), m), k.Sq(n)) == k.mul(h, k.Sq(d))
  {
    var f, nn, vv := Four(k), k.Sq(n), k.Sq(v);
    FDist(k, nn, k.mul(f, vv), h);
    FAssoc(k, f, vv, nn);
    FMulNeg(k, f, k.mul(t, h));
    FAssoc(k, f, t, h);
    Squares(k, t);
    FDist(k, h, k.Sq(d), k.mul(f, t));
    FComm(k, h, k.mul(f, t));
    var x, y := k.mul(k.mul(f, t), h), k.mul(h, k.Sq(d));
    // -x + (y + x) == y
    FAddComm(k, k.neg(x), k.add(y, x));
    MoveOver(k, y, x, k.add(y, x));
  }

  /** -g*m is the square of c3*d / (2*n). */
  lemma MinusIsSquare<F(!new)>(k: Field<F>, g: F, h: F, m: F, c3: F, n: F, d: F)
    requires IsField(k) && Two(k) != k.zero && n != k.zero
    requires k.mul(k.mul(Four(k), m), k.Sq(n)) == k.mul(h, k.Sq(d)) && k.Sq(c3) == k.mul(k.neg(g), h)
    ensures IsSquare(k, k.mul(k.neg(g), m))
  {
    var r, f, nn, ng := k.mul(Two(k), n), Four(k), k.Sq(n), k.neg(g);
    FNoZeroDivisors(k, Two(k), n);
    FNoZeroDivisors(k, r, r);
    FourFacts(k, n);
    PowerProduct(k, Two(k), n);
    assert k.Sq(r) == k.mul(f, nn);
    // (f*nn) * (ng*m) == ng * ((f*m)*nn) == ng * (h * d^2) == (c3*d)^2
    FSwap(k, f, nn, ng, m);
    FComm(k, f, ng);
    FComm(k, nn, m);
    FAssoc(k, ng, f, k.mul(m, nn));
    FAssoc(k, f, m, nn);
    FAssoc(k, ng, h, k.Sq(d));
    PowerProduct(k, c3, d);
    SquareQuotient(k, k.Sq(r), k.mul(ng, m), r, k.mul(c3, d));
  }

  /** For y == (n^2 / (d*n))^2 * c4 with c4 == -4g/h: y * m == -g. */
  lemma ThirdOffset<F(!new)>(k: Field<F>, g: F, h: F, m: F, n: F, d: F, c4: F, y: F)
    requires IsField(k) && Two(k) != k.zero && n != k.zero && k.mul(d, n) != k.zero && h != k.zero
    requires k.mul(k.mul(Four(k), m), k.Sq(n)) == k.mul(h, k.Sq(d))
    requires c4 == k.mul(k.mul(k.neg(Four(k)), g), k.inv(h))
    requires y == k.mul(k.Sq(k.mul(k.Sq(n), k.inv(k.mul(d, n)))), c4)
    ensures k.mul(y, m) == k.neg(g)
  {
    var f, nn, dd, i := Four(k), k.Sq(n), k.Sq(d), k.inv(k.mul(d, n));
    var q := k.mul(nn, i);
    // q * d == n
    FComm(k, d, n);
    FAssoc(k, n, n, i);
    FAssoc(k, n, k.mul(n, i), d);
    FAssoc(k, n, i, d);
    FComm(k, i, d);
    FAssoc(k, n, d, i);
    FInv(k, k.mul(d, n));
    FOne(k, n);
    assert k.mul(q, d) == n;
    PowerProduct(k, q, d);
    // c4 * h == -(4*g)
    FAssoc(k, k.mul(k.neg(f), g), k.inv(h), h);
    FInv(k, h);
    FOne(k, k.mul(k.neg(f), g));
    FMulNeg(k, f, g);
    assert k.mul(c4, h) == k.neg(k.mul(f, g));
    // y * ((f*m)*nn) == (q^2*c4) * (h*dd) == nn * -(f*g)
    FComm(k, h, dd);
    FSwap(k, k.Sq(q), c4, dd, h);
    // == (y*m) * (f*nn), and nn * -(f*g) == -g * (f*nn)
    FComm(k, f, m);
    FAssoc(k, m, f, nn);
    FAssoc(k, y, m, k.mul(f, nn));
    FMulNeg(k, nn, k.mul(f, g));
    FComm(k, nn, k.mul(f, g));
    FComm(k, f, g);
    FAssoc(k, g, f, nn);
    FMulNeg(k, g, k.mul(f, nn));
    FourFacts(k, n);
    FNoZeroDivisors(k, Two(k), Two(k));
    FNoZeroDivisors(k, n, n);
    FNoZeroDivisors(k, f, nn);
    FCancel(k, k.mul(y, m), k.neg(g), k.mul(f, nn));
  }

  // ---------------------------------------------------------------- correctness

  /** The precomputation succeeds and its constants are what section 6.6.1 of RFC 9380 lists. */
  lemma PrecomputedMeaning<F(!new)>(c: Setting<F>, half: F)
    requires SuitableSvdw(c, half)
    ensures Precomputed(c, half).Some?
    ensures var cs, k, g, h := Precomputed(c, half).value, c.k, CurveRhs(c, c.z), Slope(c);
            && cs.c1 == g && k.add(cs.c2, cs.c2) == k.neg(c.z) && k.Sq(cs.c3) == k.mul(k.neg(g), h)
            && (cs.c3 != k.zero ==> !c.isOdd(cs.c3)) && k.mul(cs.c4, h) == k.neg(k.mul(Four(k), g))
  {
    var k, g, h := c.k, CurveRhs(c, c.z), Slope(c);
    var x := k.mul(k.neg(g), h);
    assert At1(x);
    var r := c.sqrt(x).value;
    assert At1(r);
    FDist(k, k.neg(c.z), half, half);
    FOne(k, k.neg(c.z));
    FMulNeg(k, k.neg(r), r);
    FMulNeg(k, r, r);
    FNeg(k, k.Sq(r));
    GNegZero(k.AddGroup());
    FAssoc(k, k.mul(k.neg(Four(k)), g), k.inv(h), h);
    FInv(k, h);
    FOne(k, k.mul(k.neg(Four(k)), g));
    FMulNeg(k, Four(k), g);
  }

  lemma TwoNonZero<F(!new)>(k: Field<F>, half: F)
    requires IsField(k) && k.add(half, half) == k.one
    ensures Two(k) != k.zero
  {
    FDist(k, half, k.one, k.one);
    FOne(k, half);
    FMulZero(k, half);
  }

  /** At least one of the three candidates is the abscissa of a point. */
  lemma SomeCandidate<F(!new)>(c: Setting<F>, half: F, u: F)
    requires SuitableSvdw(c, half) && Precomputed(c, half).Some?
    ensures var (x1, x2, x3) := Candidates(c, Precomputed(c, half).value, u);
            IsSquare(c.k, CurveRhs(c, x1)) || IsSquare(c.k, CurveRhs(c, x2)) || IsSquare(c.k, CurveRhs(c, x3))
  {
    var k, cs, g, h := c.k, Precomputed(c, half).value, CurveRhs(c, c.z), Slope(c);
    PrecomputedMeaning(c, half);
    var t := k.mul(k.Sq(u), cs.c1);
    var n, d := k.add(k.one, t), k.Sub(k.one, t);
    var tv3 := Inv0(k, k.mul(d, n));
    var v := k.mul(k.mul(k.mul(u, d), tv3), cs.c3);
    var y := k.mul(k.Sq(k.mul(k.Sq(n), tv3)), cs.c4);
    if tv3 == k.zero {
      ZeroOffsets(k, k.mul(u, d), cs.c3, k.Sq(n), cs.c4);
      FAddZero(k, cs.c2);
      FAddZero(k, c.z);
    } else {
      NonExceptional(c, half, cs, u, t, n, d, v, y);
    }
  }

  lemma ZeroOffsets<F(!new)>(k: Field<F>, a: F, c3: F, b: F, c4: F)
    requires IsField(k)
    ensures k.mul(k.mul(a, k.zero), c3) == k.zero && k.mul(k.Sq(k.mul(b, k.zero)), c4) == k.zero
  {
    FMulZero(k, a);
    FMulZero(k, b);
    FMulZero(k, c3);
    FMulZero(k, c4);
    FMulZero(k, k.zero);
  }

  /** Away from t == 1 and t == -1 the three right-hand sides multiply to a square. */
  lemma NonExceptional<F(!new)>(c: Setting<F>, half: F, cs: Constants<F>, u: F, t: F, n: F, d: F, v: F, y: F)
    requires SuitableSvdw(c, half) && Precomputed(c, half) == Some(cs)
    requires t == c.k.mul(c.k.Sq(u), cs.c1) && n == c.k.add(c.k.one, t) && d == c.k.Sub(c.k.one, t)
    requires c.k.mul(d, n) != c.k.zero
    requires v == c.k.mul(c.k.mul(c.k.mul(u, d), c.k.inv(c.k.mul(d, n))), cs.c3)
    requires y == c.k.mul(c.k.Sq(c.k.mul(c.k.Sq(n), c.k.inv(c.k.mul(d, n)))), cs.c4)
    ensures var x1, x2, x3 := c.k.Sub(cs.c2, v), c.k.add(cs.c2, v), c.k.add(y, c.z);
            IsSquare(c.k, CurveRhs(c, x1)) || IsSquare(c.k, CurveRhs(c, x2)) || IsSquare(c.k, CurveRhs(c, x3))
  {
    var k, g, h := c.k, CurveRhs(c, c.z), Slope(c);
    PrecomputedMeaning(c, half);
    TwoNonZero(k, half);
    FNoZeroDivisors(k, d, n);
    var x1, x2, x3 := k.Sub(cs.c2, v), k.add(cs.c2, v), k.add(y, c.z);
    var m := Middle(c, x1, x2);
    Centre(c, half, cs.c2, v);
    Offset(k, u, g, h, cs.c3, d, n, v, t);
    MiddleRatio(k, m, h, v, n, d, t);
    MinusIsSquare(k, g, h, m, cs.c3, n, d);
    ThirdOffset(k, g, h, m, n, d, cs.c4, y);
    MiddleNonZero(k, m, h, n, d);
    // z - x3 == -y, so (z - x3) * m == g
    ZMinus(k, c.z, y);
    FMulNeg(k, y, m);
    FNeg(k, g);
    OneIsSquare(c, x1, x2, x3);
  }

  lemma ZMinus<F(!new)>(k: Field<F>, z: F, y: F)
    requires IsField(k)
    ensures k.Sub(z, k.add(y, z)) == k.neg(y)
  {
    var g := k.AddGroup();
    GNegAdd(g, y, z);
    FAddComm(k, k.neg(y), k.neg(z));
    GAssoc(g, z, k.neg(z), k.neg(y));
    FNeg(k, z);
    FAddZero(k, k.neg(y));
  }

  lemma MiddleNonZero<F(!new)>(k: Field<F>, m: F, h: F, n: F, d: F)
    requires IsField(k) && h != k.zero && d != k.zero && k.mul(k.mul(Four(k), m), k.Sq(n)) == k.mul(h, k.Sq(d))
    ensures m != k.zero
  {
    FNoZeroDivisors(k, d, d);
    FNoZeroDivisors(k, h, k.Sq(d));
    FMulZero(k, Four(k));
    FMulZero(k, k.Sq(n));
  }

  /** x1, x2 and x3 are the candidates of section 6.6.1 of RFC 9380 for u, stated without division: with
      t = u^2 * g(Z), d = 1 - t and n = 1 + t they are c2 - u*d*c3/(d*n), c2 + u*d*c3/(d*n) and
      Z + (n^2/(d*n))^2 * c4, where a quotient by zero counts as zero. */
  ghost predicate AreCandidates<F>(c: Setting<F>, cs: Constants<F>, u: F, x1: F, x2: F, x3: F) {
    var k := c.k;
    var g := k.add(k.add(k.mul(k.mul(c.z, c.z), c.z), k.mul(c.a, c.z)), c.b);
    var t := k.mul(k.mul(u, u), g);
    var d, n := k.Sub(k.one, t), k.add(k.one, t);
    var dn := k.mul(d, n);
    if dn == k.zero then x1 == cs.c2 && x2 == cs.c2 && x3 == c.z
    else
      && k.mul(k.Sub(cs.c2, x1), dn) == k.mul(k.mul(u, d), cs.c3)
      && k.mul(k.Sub(x2, cs.c2), dn) == k.mul(k.mul(u, d), cs.c3)
      && k.mul(k.Sub(x3, c.z), k.mul(dn, dn)) == k.mul(k.mul(k.mul(n, n), k.mul(n, n)), cs.c4)
  }

  /** (a * i) * c, multiplied by x with x * i == 1, is a * c */
  lemma Unscale<F(!new)>(k: Field<F>, a: F, i: F, c: F, x: F)
    requires IsField(k) && k.mul(x, i) == k.one
    ensures k.mul(k.mul(k.mul(a, i), c), x) == k.mul(a, c)
  {
    FAssoc(k, k.mul(a, i), c, x);
    FComm(k, c, x);
    FSwap(k, a, i, x, c);
    FSwap(k, a, i, c, x);
    FComm(k, i, x);
    FOne(k, k.mul(a, c));
  }

  /** c - (c - v) == v == (c + v) - c */
  lemma Offsets<F(!new)>(k: Field<F>, c: F, v: F)
    requires IsField(k)
    ensures k.Sub(c, k.Sub(c, v)) == v && k.Sub(k.add(c, v), c) == v
  {
    FAddComm(k, c, v);
    MoveOver(k, v, c, k.add(c, v));
    MoveOver(k, k.Sub(c, v), v, c);
    FAddComm(k, k.Sub(c, v), v);
    MoveOver(k, v, k.Sub(c, v), c);
  }

  lemma CandidatesMeaning<F(!new)>(c: Setting<F>, cs: Constants<F>, u: F)
    requires IsField(c.k) && cs.c1 == CurveRhs(c, c.z)
    ensures var (x1, x2, x3) := Candidates(c, cs, u); AreCandidates(c, cs, u, x1, x2, x3)
  {
    var k := c.k;
    RhsMeaning(c, c.z);
    var t := k.mul(k.Sq(u), cs.c1);
    var d, n := k.Sub(k.one, t), k.add(k.one, t);
    var dn := k.mul(d, n);
    var i := Inv0(k, dn);
    if dn == k.zero {
      ZeroOffsets(k, k.mul(u, d), cs.c3, k.Sq(n), cs.c4);
      FAddZero(k, cs.c2);
      FAddZero(k, c.z);
      GNegZero(k.AddGroup());
    } else {
      var v := k.mul(k.mul(k.mul(u, d), i), cs.c3);
      var y := k.mul(k.Sq(k.mul(k.Sq(n), i)), cs.c4);
      FInv(k, dn);
      Offsets(k, cs.c2, v);
      Unscale(k, k.mul(u, d), i, cs.c3, dn);
      FAddComm(k, y, c.z);
      Offsets(k, c.z, y);
      PowerProduct(k, k.Sq(n), i);
      PowerProduct(k, dn, i);
      FOne(k, k.one);
      Unscale(k, k.Sq(k.Sq(n)), k.Sq(i), cs.c4, k.Sq(dn));
    }
  }

  /** The map never fails; it returns the first candidate whose right-hand side is a square, with a y of the sign
      of u. */
  lemma MapToCurveSvdwMeaning<F(!new)>(c: Setting<F>, half: F, u: F) returns (x1: F, x2: F, x3: F)
    requires SuitableSvdw(c, half)
    ensures Precomputed(c, half).Some? && MapToCurveSvdw(c, Precomputed(c, half).value, u).Some?
    ensures AreCandidates(c, Precomputed(c, half).value, u, x1, x2, x3)
    ensures var (x, y) := MapToCurveSvdw(c, Precomputed(c, half).value, u).value;
            && (IsSquare(c.k, CurveRhs(c, x1)) ==> x == x1)
            && (!IsSquare(c.k, CurveRhs(c, x1)) && IsSquare(c.k, CurveRhs(c, x2)) ==> x == x2)
            && (!IsSquare(c.k, CurveRhs(c, x1)) && !IsSquare(c.k, CurveRhs(c, x2)) ==> x == x3)
            && c.k.Sq(y) == CurveRhs(c, x) && (y != c.k.zero ==> c.isOdd(y) == c.isOdd(u))
  {
    PrecomputedMeaning(c, half);
    var cs := Precomputed(c, half).value;
    SomeCandidate(c, half, u);
    CandidatesMeaning(c, cs, u);
    var (z1, z2, z3) := Candidates(c, cs, u);
    x1, x2, x3 := z1, z2, z3;
    assert At1(CurveRhs(c, x1)) && At1(CurveRhs(c, x2)) && At1(CurveRhs(c, x3));
    var x := if IsSquare(c.k, CurveRhs(c, x1)) then x1 else if IsSquare(c.k, CurveRhs(c, x2)) then x2 else x3;
    var y := c.sqrt(CurveRhs(c, x)).value;
    SignChoice(c, u, y, if c.isOdd(u) == c.isOdd(y) then y else c.k.neg(y));
  }

  /** The candidates are determined. */
  lemma CandidatesAreUnique<F(!new)>(c: Setting<F>, cs: Constants<F>, u: F, x1: F, x2: F, x3: F, y1: F, y2: F, y3: F)
    requires IsField(c.k) && AreCandidates(c, cs, u, x1, x2, x3) && AreCandidates(c, cs, u, y1, y2, y3)
    ensures x1 == y1 && x2 == y2 && x3 == y3
  {
    var k := c.k;
    var grp := k.AddGroup();
    var g := k.add(k.add(k.mul(k.mul(c.z, c.z), c.z), k.mul(c.a, c.z)), c.b);
    var t := k.mul(k.mul(u, u), g);
    var dn := k.mul(k.Sub(k.one, t), k.add(k.one, t));
    if dn != k.zero {
      FNoZeroDivisors(k, dn, dn);
      FCancel(k, k.Sub(cs.c2, x1), k.Sub(cs.c2, y1), dn);
      FCancel(k, k.Sub(x2, cs.c2), k.Sub(y2, cs.c2), dn);
      FCancel(k, k.Sub(x3, c.z), k.Sub(y3, c.z), k.mul(dn, dn));
      GComm(grp, cs.c2, k.neg(x1));
      GComm(grp, cs.c2, k.neg(y1));
      GCancel(grp, k.neg(x1), k.neg(y1), cs.c2);
      FNeg(k, x1);
      FNeg(k, y1);
      GCancel(grp, x2, y2, k.neg(cs.c2));
      GCancel(grp, x3, y3, k.neg(c.z));
    }
  }
}
