/** The simplified SWU map (curves/src/hash_to_curve.rs, sswu_map_to_curve and its sqrt_ratio) against its
    definition in section 6.6.2 of RFC 9380. */
module Sswu {
  import opened Algebra
  import opened Wrappers

  /** A field with square roots and a sign, the constant Z, and the curve y^2 = x^3 + A*x + B. */
  datatype Setting<!F> = Setting(k: Field<F>, sqrt: F -> Option<F>, isOdd: F -> bool, z: F, a: F, b: F)

  ghost predicate IsSquare<F(!new)>(k: Field<F>, x: F) {
    exists r: F {:trigger k.Sq(r)} :: k.Sq(r) == x
  }

  /** x^3 + A*x + B */
  function CurveRhs<F>(c: Setting<F>, x: F): F {
    c.k.add(c.k.mul(c.k.add(c.k.Sq(x), c.a), x), c.b)
  }

  /** The right-hand side, multiplied out. */
  lemma RhsMeaning<F(!new)>(c: Setting<F>, x: F)
    requires IsField(c.k)
    ensures CurveRhs(c, x) == c.k.add(c.k.add(c.k.mul(c.k.mul(x, x), x), c.k.mul(c.a, x)), c.b)
  {
    FDist(c.k, x, c.k.Sq(x), c.a);
  }

  /** sqrt finds a root exactly when there is one, negation flips the sign of non-zero elements, and two
      non-squares multiply to a square. */
  ghost predicate RootsAndSigns<F(!new)>(c: Setting<F>) {
    && IsField(c.k)
    && (forall x: F {:trigger At1(x)} :: At1(x) ==>
          && (c.sqrt(x).Some? <==> IsSquare(c.k, x))
          && (c.sqrt(x).Some? ==> c.k.Sq(c.sqrt(x).value) == x)
          && (x != c.k.zero ==> c.isOdd(c.k.neg(x)) != c.isOdd(x)))
    && (forall x: F, y: F {:trigger At2(x, y)} :: At2(x, y) && !IsSquare(c.k, x) && !IsSquare(c.k, y) ==>
          IsSquare(c.k, c.k.mul(x, y)))
  }

  /** What the map requires of its parameters: A and B are not zero, Z is not a square, and g(B / (Z*A)) is. */
  ghost predicate Suitable<F(!new)>(c: Setting<F>) {
    && RootsAndSigns(c) && c.a != c.k.zero && c.b != c.k.zero && !IsSquare(c.k, c.z)
    && IsSquare(c.k, CurveRhs(c, c.k.mul(c.b, c.k.inv(c.k.mul(c.z, c.a)))))
  }

  // ---------------------------------------------------------------- sqrt_ratio

  function Inv0<F(==)>(k: Field<F>, x: F): F {
    if x == k.zero then k.zero else k.inv(x)
  }

  /** (num / div is a square, a root of num / div or of z * num / div); None if an assertion fails. */
  function SqrtRatio<F(==)>(c: Setting<F>, num: F, div: F): Option<(bool, F)> {
    var a := c.k.mul(Inv0(c.k, div), num);
    var b := c.k.mul(a, c.z);
    var sqrtA, sqrtB := c.sqrt(a), c.sqrt(b);
    var numIsZero, divIsZero := num == c.k.zero, div == c.k.zero;
    if !(numIsZero || divIsZero || sqrtA.Some? != sqrtB.Some?) then None
    else
      var root := if sqrtA.Some? then sqrtA else sqrtB;
      if root.None? then None
      else Some((sqrtA.Some? && (numIsZero || !divIsZero), root.value))
  }

  lemma ZeroIsSquare<F(!new)>(k: Field<F>)
    requires IsField(k)
    ensures IsSquare(k, k.zero)
  {
    FMulZero(k, k.zero);
    assert k.Sq(k.zero) == k.zero;
  }

  /** r^2 == x and t^2 == x * z make z the square of t / r. */
  lemma SquareQuotient<F(!new)>(k: Field<F>, x: F, z: F, r: F, t: F)
    requires IsField(k) && x != k.zero && k.Sq(r) == x && k.Sq(t) == k.mul(x, z)
    ensures IsSquare(k, z)
  {
    FMulZero(k, r);
    var i := k.inv(r);
    FSwap(k, t, i, t, i);
    FSwap(k, r, i, r, i);
    FInv(k, r);
    FOne(k, k.one);
    FComm(k, x, z);
    FAssoc(k, z, x, k.Sq(i));
    FOne(k, z);
    assert k.Sq(k.mul(t, i)) == z;
  }

  /** A non-zero square times a non-square is not a square. */
  lemma SquareTimesNonSquare<F(!new)>(k: Field<F>, x: F, z: F)
    requires IsField(k) && IsSquare(k, x) && x != k.zero && !IsSquare(k, z)
    ensures !IsSquare(k, k.mul(x, z))
  {
    if IsSquare(k, k.mul(x, z)) {
      var r: F :| k.Sq(r) == x;
      var t: F :| k.Sq(t) == k.mul(x, z);
      SquareQuotient(k, x, z, r, t);
    }
  }

  /** The square-root selection never fails, and returns what its comment promises. */
  lemma SqrtRatioMeaning<F(!new)>(c: Setting<F>, num: F, div: F)
    requires Suitable(c)
    ensures SqrtRatio(c, num, div).Some?
    ensures var (isSquare, root) := SqrtRatio(c, num, div).value;
            var q := c.k.mul(Inv0(c.k, div), num);
            && (div != c.k.zero ==> (isSquare <==> IsSquare(c.k, q)))
            && (div == c.k.zero ==> (isSquare <==> num == c.k.zero) && root == c.k.zero)
            && c.k.Sq(root) == (if IsSquare(c.k, q) then q else c.k.mul(q, c.z))
  {
    var k := c.k;
    var q := k.mul(Inv0(k, div), num);
    ZeroIsSquare(k);
    assert At1(q) && At1(k.mul(q, c.z)) && At2(q, c.z);
    if num == k.zero || div == k.zero {
      FMulZero(k, Inv0(k, div));
      FMulZero(k, num);
      assert q == k.zero;
      var root := c.sqrt(q).value;
      FNoZeroDivisors(k, root, root);
    } else {
      FInvNonZero(k, div);
      FNoZeroDivisors(k, k.inv(div), num);
      if IsSquare(k, q) {
        SquareTimesNonSquare(k, q, c.z);
      }
    }
  }

  // ---------------------------------------------------------------- the map

  /** X^3 + A*X*Z^2 + B*Z^3, as the code groups it. */
  function Homogeneous<F>(c: Setting<F>, x: F, w: F): F {
    var k := c.k;
    k.add(k.mul(k.add(k.Sq(x), k.mul(c.a, k.Sq(w))), x), k.mul(c.b, k.mul(k.Sq(w), w)))
  }

  /** Homogeneous coordinates of the point for u; None if a square root fails. */
  function MapToCurve<F(==)>(c: Setting<F>, u: F): Option<(F, F, F)> {
    var k := c.k;
    var tv1 := k.mul(c.z, k.Sq(u));
    var s := k.add(k.Sq(tv1), tv1);
    var tv3 := k.mul(c.b, k.add(s, k.one));
    var tv4 := k.mul(c.a, if s != k.zero then k.neg(s) else c.z);
    var tv6 := k.mul(k.Sq(tv4), tv4);
    var gx1 := k.add(k.mul(k.add(k.Sq(tv3), k.mul(c.a, k.Sq(tv4))), tv3), k.mul(c.b, tv6));
    var ratio := SqrtRatio(c, gx1, tv6);
    if ratio.None? then None
    else
      var (isGx1Square, y1) := ratio.value;
      var x := if isGx1Square then tv3 else k.mul(tv1, tv3);
      var y := if isGx1Square then y1 else k.mul(k.mul(tv1, u), y1);
      var y' := if c.isOdd(u) == c.isOdd(y) then y else k.neg(y);
      Some((x, k.mul(y', tv4), tv4))
  }

  // ---------------------------------------------------------------- the definition

  /** The first candidate: (-B/A) * (1 + 1/(Z^2*u^4 + Z*u^2)), or B/(Z*A) when that denominator is zero. */
  ghost function FirstX<F>(c: Setting<F>, u: F): F {
    var k := c.k;
    var t := k.mul(c.z, k.Sq(u));
    var s := k.add(k.Sq(t), t);
    if s == k.zero then k.mul(c.b, k.inv(k.mul(c.z, c.a)))
    else k.mul(k.neg(k.mul(c.b, k.inv(c.a))), k.add(k.one, k.inv(s)))
  }

  /** The first candidate if its right-hand side is a square, and otherwise Z*u^2 times it. */
  ghost function ChosenX<F(!new)>(c: Setting<F>, u: F): F {
    var x1 := FirstX(c, u);
    if IsSquare(c.k, CurveRhs(c, x1)) then x1 else c.k.mul(c.k.mul(c.z, c.k.Sq(u)), x1)
  }

  // ---------------------------------------------------------------- identities

  /** (x*y)^2 == x^2 * y^2 and (x*y)^3 == x^3 * y^3 */
  lemma PowerProduct<F(!new)>(k: Field<F>, x: F, y: F)
    requires IsField(k)
    ensures k.Sq(k.mul(x, y)) == k.mul(k.Sq(x), k.Sq(y))
    ensures k.mul(k.Sq(k.mul(x, y)), k.mul(x, y)) == k.mul(k.mul(k.Sq(x), x), k.mul(k.Sq(y), y))
  {
    FSwap(k, x, y, x, y);
    FSwap(k, k.Sq(x), k.Sq(y), x, y);
  }

  /** g(x) * w^3 is the homogeneous form at (x*w, w). */
  lemma Homogenize<F(!new)>(c: Setting<F>, x: F, w: F)
    requires IsField(c.k)
    ensures Homogeneous(c, c.k.mul(x, w), w) == c.k.mul(CurveRhs(c, x), c.k.mul(c.k.Sq(w), w))
  {
    var k := c.k;
    var w2 := k.Sq(w);
    var w3 := k.mul(w2, w);
    PowerProduct(k, x, w);
    // ((x w)^2 + A w^2) * (x w) == ((x^2 + A) w^2) * (x w) == ((x^2 + A) x) w^3
    FDist(k, w2, k.Sq(x), c.a);
    var s := k.add(k.Sq(x), c.a);
    FSwap(k, s, w2, x, w);
    FDist(k, w3, k.mul(s, x), c.b);
  }

  /** (s + 1) * t == t^3 + s for s == t^2 + t */
  lemma CubeIdentity<F(!new)>(k: Field<F>, t: F, s: F)
    requires IsField(k) && s == k.add(k.Sq(t), t)
    ensures k.mul(k.add(s, k.one), t) == k.add(k.mul(k.Sq(t), t), s)
  {
    FDist(k, t, s, k.one);
    FOne(k, t);
    FDist(k, t, k.Sq(t), t);
    FAddAssoc(k, k.mul(k.Sq(t), t), k.Sq(t), t);
  }

  /** With X = B*(s + 1) and W = A*(-s): A*X*t + B*W == t^3 * (A*X + B*W). */
  lemma CandidateIdentity<F(!new)>(c: Setting<F>, t: F, s: F, x: F, w: F)
    requires IsField(c.k) && s == c.k.add(c.k.Sq(t), t)
    requires x == c.k.mul(c.b, c.k.add(s, c.k.one)) && w == c.k.mul(c.a, c.k.neg(s))
    ensures c.k.add(c.k.mul(c.k.mul(c.a, x), t), c.k.mul(c.b, w)) ==
            c.k.mul(c.k.mul(c.k.Sq(t), t), c.k.add(c.k.mul(c.a, x), c.k.mul(c.b, w)))
  {
    var k := c.k;
    var m := k.mul(c.a, c.b);
    var s1, t3 := k.add(s, k.one), k.mul(k.Sq(t), t);
    // A*X == m*(s+1) and B*W == -(m*s)
    FAssoc(k, c.a, c.b, s1);
    FAssoc(k, c.b, c.a, k.neg(s));
    FComm(k, c.a, c.b);
    FMulNeg(k, m, s);
    var ms := k.mul(m, s);
    // A*X + B*W == m
    FDist(k, m, s, k.one);
    FOne(k, m);
    FAddComm(k, ms, m);
    FAddAssoc(k, m, ms, k.neg(ms));
    FNeg(k, ms);
    FAddZero(k, m);
    // A*X*t + B*W == m*(t^3 + s) - m*s == m*t^3
    FAssoc(k, m, s1, t);
    CubeIdentity(k, t, s);
    FDist(k, m, t3, s);
    FAddAssoc(k, k.mul(m, t3), ms, k.neg(ms));
    FAddZero(k, k.mul(m, t3));
    FComm(k, m, t3);
  }

  /** x^3 + (A w^2) x + B w^3 == x^3 + w^2 * (A x + B w) */
  lemma Regroup<F(!new)>(c: Setting<F>, x: F, w: F)
    requires IsField(c.k)
    ensures Homogeneous(c, x, w) ==
            c.k.add(c.k.mul(c.k.Sq(x), x), c.k.mul(c.k.Sq(w), c.k.add(c.k.mul(c.a, x), c.k.mul(c.b, w))))
  {
    var k := c.k;
    var w2 := k.Sq(w);
    FDist(k, x, k.Sq(x), k.mul(c.a, w2));
    FComm(k, c.a, w2);
    FAssoc(k, w2, c.a, x);
    FAssoc(k, c.b, w2, w);
    FComm(k, c.b, w2);
    FAssoc(k, w2, c.b, w);
    FDist(k, w2, k.mul(c.a, x), k.mul(c.b, w));
    FAddAssoc(k, k.mul(k.Sq(x), x), k.mul(w2, k.mul(c.a, x)), k.mul(w2, k.mul(c.b, w)));
  }

  /** The second candidate's right-hand side is t^3 times the first one's. */
  lemma SecondCandidate<F(!new)>(c: Setting<F>, t: F, s: F, x: F, w: F)
    requires IsField(c.k) && s == c.k.add(c.k.Sq(t), t)
    requires x == c.k.mul(c.b, c.k.add(s, c.k.one)) && w == c.k.mul(c.a, c.k.neg(s))
    ensures Homogeneous(c, c.k.mul(t, x), w) == c.k.mul(c.k.mul(c.k.Sq(t), t), Homogeneous(c, x, w))
  {
    var k := c.k;
    var w2, t3, tx := k.Sq(w), k.mul(k.Sq(t), t), k.mul(t, x);
    var ax, bw := k.mul(c.a, x), k.mul(c.b, w);
    Regroup(c, tx, w);
    Regroup(c, x, w);
    PowerProduct(k, t, x);
    // A * (t x) == (A x) * t
    FComm(k, t, x);
    FAssoc(k, c.a, x, t);
    CandidateIdentity(c, t, s, x, w);
    // w^2 * (t^3 * y) == t^3 * (w^2 * y)
    var y := k.add(ax, bw);
    FAssoc(k, w2, t3, y);
    FComm(k, w2, t3);
    FAssoc(k, t3, w2, y);
    FDist(k, t3, k.mul(k.Sq(x), x), k.mul(w2, y));
  }

  // ---------------------------------------------------------------- correctness

  /** The numerator and denominator of the first candidate, as the code computes them. */
  ghost function Numerator<F>(c: Setting<F>, s: F): F {
    c.k.mul(c.b, c.k.add(s, c.k.one))
  }

  ghost function Denominator<F>(c: Setting<F>, s: F): F {
    c.k.mul(c.a, if s != c.k.zero then c.k.neg(s) else c.z)
  }

  lemma FirstXMeaning<F(!new)>(c: Setting<F>, u: F, s: F)
    requires Suitable(c) && s == c.k.add(c.k.Sq(c.k.mul(c.z, c.k.Sq(u))), c.k.mul(c.z, c.k.Sq(u)))
    ensures Denominator(c, s) != c.k.zero
    ensures Numerator(c, s) == c.k.mul(FirstX(c, u), Denominator(c, s))
  {
    var k := c.k;
    ZeroIsSquare(k);
    assert c.z != k.zero;
    var w := Denominator(c, s);
    if s == k.zero {
      FNoZeroDivisors(k, c.a, c.z);
      FComm(k, c.a, c.z);
      FAddZero(k, k.one);
      FOne(k, c.b);
      FAssoc(k, c.b, k.inv(w), w);
      FInv(k, w);
    } else {
      FNeg(k, s);
      FNoZeroDivisors(k, c.a, k.neg(s));
      GNegZero(k.AddGroup());
      var ba, i := k.mul(c.b, k.inv(c.a)), k.inv(s);
      var f := k.add(k.one, i);
      // (-ba * f) * (A * -s) == (ba * f) * (A * s) == (ba * A) * (f * s)
      FMulNeg(k, c.a, s);
      FMulNeg(k, ba, f);
      FMulNeg(k, k.neg(k.mul(ba, f)), k.mul(c.a, s));
      FMulNeg(k, k.mul(ba, f), k.mul(c.a, s));
      FNeg(k, k.mul(k.mul(ba, f), k.mul(c.a, s)));
      FSwap(k, ba, f, c.a, s);
      FAssoc(k, c.b, k.inv(c.a), c.a);
      FInv(k, c.a);
      FOne(k, c.b);
      FDist(k, s, k.one, i);
      FOne(k, s);
      FInv(k, s);
    }
  }

  /** num / w^3 is g(x) for the homogeneous form num at (x*w, w). */
  lemma RatioIsRhs<F(!new)>(c: Setting<F>, x: F, w: F)
    requires IsField(c.k) && w != c.k.zero
    ensures c.k.mul(c.k.Sq(w), w) != c.k.zero
    ensures c.k.mul(c.k.inv(c.k.mul(c.k.Sq(w), w)), Homogeneous(c, c.k.mul(x, w), w)) == CurveRhs(c, x)
  {
    var k := c.k;
    var w3 := k.mul(k.Sq(w), w);
    FNoZeroDivisors(k, w, w);
    FNoZeroDivisors(k, k.Sq(w), w);
    Homogenize(c, x, w);
    var g := CurveRhs(c, x);
    FComm(k, g, w3);
    FAssoc(k, k.inv(w3), w3, g);
    FInv(k, w3);
    FOne(k, g);
  }

  /** (t*u*r)^2 == t^3 * g when r^2 == g * z and t == z * u^2 */
  lemma SecondRoot<F(!new)>(k: Field<F>, z: F, u: F, t: F, r: F, g: F)
    requires IsField(k) && t == k.mul(z, k.Sq(u)) && k.Sq(r) == k.mul(g, z)
    ensures k.Sq(k.mul(k.mul(t, u), r)) == k.mul(k.mul(k.Sq(t), t), g)
  {
    var t2, u2 := k.Sq(t), k.Sq(u);
    PowerProduct(k, k.mul(t, u), r);
    PowerProduct(k, t, u);
    // (t^2 * u^2) * (g * z) == (t^2 * (u^2 * z)) * g
    FComm(k, g, z);
    FAssoc(k, k.mul(t2, u2), z, g);
    FAssoc(k, t2, u2, z);
    FComm(k, u2, z);
  }

  /** For non-square g(x1): g(t * x1) == t^3 * g(x1). */
  lemma SecondRhs<F(!new)>(c: Setting<F>, u: F, t: F, s: F)
    requires Suitable(c) && t == c.k.mul(c.z, c.k.Sq(u)) && s == c.k.add(c.k.Sq(t), t) && s != c.k.zero
    ensures CurveRhs(c, c.k.mul(t, FirstX(c, u))) == c.k.mul(c.k.mul(c.k.Sq(t), t), CurveRhs(c, FirstX(c, u)))
  {
    var k, x1 := c.k, FirstX(c, u);
    var x, w := Numerator(c, s), Denominator(c, s);
    var w3, t3 := k.mul(k.Sq(w), w), k.mul(k.Sq(t), t);
    FirstXMeaning(c, u, s);
    SecondCandidate(c, t, s, x, w);
    FAssoc(k, t, x1, w);
    Homogenize(c, x1, w);
    Homogenize(c, k.mul(t, x1), w);
    FAssoc(k, t3, CurveRhs(c, x1), w3);
    RatioIsRhs(c, x1, w);
    FCancel(k, CurveRhs(c, k.mul(t, x1)), k.mul(t3, CurveRhs(c, x1)), w3);
  }

  /** Choosing between y and -y keeps the square and, for non-zero y, gives the sign of u. */
  lemma SignChoice<F(!new)>(c: Setting<F>, u: F, y: F, y': F)
    requires RootsAndSigns(c) && y' == if c.isOdd(u) == c.isOdd(y) then y else c.k.neg(y)
    ensures c.k.Sq(y') == c.k.Sq(y)
    ensures y' != c.k.zero ==> c.isOdd(y') == c.isOdd(u)
  {
    var k := c.k;
    FMulNeg(k, k.neg(y), y);
    FMulNeg(k, y, y);
    FNeg(k, k.Sq(y));
    GNegZero(k.AddGroup());
    assert At1(y);
  }

  lemma ExceptionalIsSquare<F(!new)>(c: Setting<F>, u: F)
    requires Suitable(c)
    requires var t := c.k.mul(c.z, c.k.Sq(u)); c.k.add(c.k.Sq(t), t) == c.k.zero
    ensures IsSquare(c.k, CurveRhs(c, FirstX(c, u)))
  {}

  lemma SuitableField<F(!new)>(c: Setting<F>)
    requires Suitable(c)
    ensures IsField(c.k)
  {}

  /** The map never fails. Its result is the chosen x and a y of the sign of u, on the curve, scaled by a
      non-zero w. */
  lemma MapToCurveMeaning<F(!new)>(c: Setting<F>, u: F) returns (y: F, w: F)
    requires Suitable(c)
    ensures w != c.k.zero
    ensures MapToCurve(c, u) == Some((c.k.mul(ChosenX(c, u), w), c.k.mul(y, w), w))
    ensures c.k.Sq(y) == CurveRhs(c, ChosenX(c, u))
    ensures y != c.k.zero ==> c.isOdd(y) == c.isOdd(u)
  {
    SuitableField(c);
    var k, x1 := c.k, FirstX(c, u);
    var t := k.mul(c.z, k.Sq(u));
    var s := k.add(k.Sq(t), t);
    var tv3 := Numerator(c, s);
    w := Denominator(c, s);
    FirstXMeaning(c, u, s);
    RatioIsRhs(c, x1, w);
    var gx1, tv6 := Homogeneous(c, tv3, w), k.mul(k.Sq(w), w);
    SqrtRatioMeaning(c, gx1, tv6);
    var (isSquare, y1) := SqrtRatio(c, gx1, tv6).value;
    var y0 := if isSquare then y1 else k.mul(k.mul(t, u), y1);
    if !isSquare {
      if s == k.zero {
        ExceptionalIsSquare(c, u);
      }
      SecondRoot(k, c.z, u, t, y1, CurveRhs(c, x1));
      SecondRhs(c, u, t, s);
      FAssoc(k, t, x1, w);
    }
    y := if c.isOdd(u) == c.isOdd(y0) then y0 else k.neg(y0);
    SignChoice(c, u, y0, y);
  }

  /** The returned coordinates satisfy Y^2 * Z == X^3 + A*X*Z^2 + B*Z^3 with Z non-zero. */
  lemma MapToCurveOnCurve<F(!new)>(c: Setting<F>, u: F)
    requires Suitable(c)
    ensures MapToCurve(c, u).Some?
    ensures var (x, y, w) := MapToCurve(c, u).value;
            w != c.k.zero && c.k.mul(c.k.Sq(y), w) == Homogeneous(c, x, w)
  {
    SuitableField(c);
    var y, w := MapToCurveMeaning(c, u);
    hide Suitable, MapToCurve;
    var k, x := c.k, ChosenX(c, u);
    Homogenize(c, x, w);
    PowerProduct(k, y, w);
    FAssoc(k, k.Sq(y), k.Sq(w), w);
  }
}
