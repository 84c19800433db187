/** Point addition of the foreign-field curve chip (circuits/src/ecc/foreign/ecc_chip.rs, assert_add and
    assert_double): the slope, lambda-squared and tangent gates together hold exactly for the sum of two points. */
module EccGates {
  import opened Algebra
  import opened Numbers
  import opened CurveModel
  import opened CurveLaw
  import opened Divisibility
  import opened LimbSums
  import opened ForeignParams

  // ---------------------------------------------------------------- over a field

  /** l is the slope from p to r reflected if negate, that is to (r.x, -r.y). */
  ghost predicate SlopeHolds<F>(k: Field<F>, p: Coords<F>, r: Coords<F>, l: F, negate: bool)
    requires p.At? && r.At?
  {
    k.mul(l, k.Sub(r.x, p.x)) == k.Sub(if negate then k.neg(r.y) else r.y, p.y)
  }

  ghost predicate Lambda2Holds<F>(k: Field<F>, p: Coords<F>, q: Coords<F>, r: Coords<F>, l: F)
    requires p.At? && q.At? && r.At?
  {
    k.add(k.add(p.x, q.x), r.x) == k.mul(l, l)
  }

  ghost predicate TangentHolds<F>(k: Field<F>, p: Coords<F>, l: F)
    requires p.At?
  {
    var xx, yl := k.mul(p.x, p.x), k.mul(p.y, l);
    k.add(k.add(xx, xx), xx) == k.add(yl, yl)
  }

  /** The two last equations determine r: it is what Through computes. */
  lemma ThroughIsOnly<F(!new)>(k: Field<F>, p: Coords<F>, q: Coords<F>, r: Coords<F>, l: F)
    requires IsField(k) && p.At? && q.At? && r.At?
    ensures r == Through(k, p, q, l) <==> Lambda2Holds(k, p, q, r, l) && SlopeHolds(k, p, r, l, true)
  {
    var g, t := k.AddGroup(), Through(k, p, q, l);
    FAddComm(k, k.add(p.x, q.x), r.x);
    MoveOver(k, r.x, k.add(p.x, q.x), k.Sq(l));
    // l*(x3 - x1) == -(l*(x1 - x3))
    var s := k.Sub(p.x, r.x);
    GNegAdd(g, p.x, k.neg(r.x));
    FNeg(k, r.x);
    FAddComm(k, k.neg(p.x), r.x);
    FMulNeg(k, l, s);
    // -m == -y3 - y1 exactly when y3 == m - y1
    var m := k.mul(l, s);
    GNegAdd(g, r.y, p.y);
    FNeg(k, m);
    FNeg(k, k.add(r.y, p.y));
    MoveOver(k, r.y, p.y, m);
  }

  /** The three equations of assert_add for affine points, the first two different. */
  lemma AddEquations<F(!new)>(k: Field<F>, b: F, p: Coords<F>, q: Coords<F>, r: Coords<F>, l: F)
    requires IsField(k) && k.add(k.one, k.one) != k.zero && p.At? && q.At? && r.At? && p != q
    requires OnCurve(k, b, p) && OnCurve(k, b, q)
    requires SlopeHolds(k, p, q, l, false) && Lambda2Holds(k, p, q, r, l) && SlopeHolds(k, p, r, l, true)
    ensures IsSum(k, b, p, q, r)
  {
    if p.x == q.x {
      FSubZero(k, q.x, p.x);
      FMulZero(k, l);
      FSubZero(k, q.y, p.y);
    }
    ThroughIsOnly(k, p, q, r, l);
    ThroughIsSum(k, b, p, q, l);
  }

  /** The slope of two points whose sum is affine satisfies the equations. */
  lemma AddSlope<F(!new)>(k: Field<F>, b: F, p: Coords<F>, q: Coords<F>, r: Coords<F>) returns (l: F)
    requires IsField(k) && k.add(k.one, k.one) != k.zero && p.At? && q.At? && r.At? && p != q
    requires OnCurve(k, b, p) && OnCurve(k, b, q) && IsSum(k, b, p, q, r)
    ensures SlopeHolds(k, p, q, l, false) && Lambda2Holds(k, p, q, r, l) && SlopeHolds(k, p, r, l, true)
  {
    var run, rise := k.Sub(q.x, p.x), k.Sub(q.y, p.y);
    l := k.mul(rise, k.inv(run));
    FSquareRoots(k, p.y, q.y);
    FNeg(k, q.y);
    FSubZero(k, q.x, p.x);
    FAssoc(k, rise, k.inv(run), run);
    FInv(k, run);
    FOne(k, rise);
    ChordTangentIsSum(k, b, p, q);
    SumIsUnique(k, b, p, q, r, ChordTangent(k, p, q));
    ThroughIsOnly(k, p, q, r, l);
  }

  /** 2 * (y * l) is l * (y + y). */
  lemma TwiceProduct<F(!new)>(k: Field<F>, y: F, l: F)
    requires IsField(k)
    ensures k.add(k.mul(y, l), k.mul(y, l)) == k.mul(l, k.add(y, y))
  {
    FComm(k, y, l);
    FDist(k, l, y, y);
  }

  /** On a curve with b and 3 not zero, no tangent equation holds at a point of order two. */
  lemma NoTangentAtTorsion<F(!new)>(k: Field<F>, b: F, p: Coords<F>, l: F)
    requires IsField(k) && k.add(k.add(k.one, k.one), k.one) != k.zero && b != k.zero
    requires p.At? && OnCurve(k, b, p) && p.y == k.zero
    ensures !TangentHolds(k, p, l)
  {
    var xx, three := k.Sq(p.x), k.add(k.add(k.one, k.one), k.one);
    FMulZero(k, l);
    FMulZero(k, p.y);
    FMulZero(k, p.x);
    FAddZero(k, k.zero);
    FAddZero(k, b);
    // 3*x^2 == 0 would make x zero, and then b as well
    FDist(k, xx, k.add(k.one, k.one), k.one);
    FDist(k, xx, k.one, k.one);
    FOne(k, xx);
    FNoZeroDivisors(k, three, xx);
    FNoZeroDivisors(k, p.x, p.x);
  }

  /** The three equations of assert_double. */
  lemma DoubleEquations<F(!new)>(k: Field<F>, b: F, p: Coords<F>, r: Coords<F>, l: F)
    requires IsField(k) && k.add(k.one, k.one) != k.zero && k.add(k.add(k.one, k.one), k.one) != k.zero && b != k.zero
    requires p.At? && r.At? && OnCurve(k, b, p)
    requires TangentHolds(k, p, l) && Lambda2Holds(k, p, p, r, l) && SlopeHolds(k, p, r, l, true)
    ensures IsSum(k, b, p, p, r)
  {
    if p.y == k.zero {
      NoTangentAtTorsion(k, b, p, l);
    }
    TwiceZero(k, p.y);
    TwiceProduct(k, p.y, l);
    ThroughIsOnly(k, p, p, r, l);
    ThroughIsSum(k, b, p, p, l);
  }

  lemma DoubleSlope<F(!new)>(k: Field<F>, b: F, p: Coords<F>, r: Coords<F>) returns (l: F)
    requires IsField(k) && k.add(k.one, k.one) != k.zero && p.At? && r.At? && OnCurve(k, b, p) && IsSum(k, b, p, p, r)
    ensures TangentHolds(k, p, l) && Lambda2Holds(k, p, p, r, l) && SlopeHolds(k, p, r, l, true)
  {
    var xx, run := k.Sq(p.x), k.add(p.y, p.y);
    var rise := k.add(k.add(xx, xx), xx);
    l := k.mul(rise, k.inv(run));
    TwiceZero(k, p.y);
    FAssoc(k, rise, k.inv(run), run);
    FInv(k, run);
    FOne(k, rise);
    TwiceProduct(k, p.y, l);
    ChordTangentIsSum(k, b, p, p);
    SumIsUnique(k, b, p, p, r, ChordTangent(k, p, p));
    ThroughIsOnly(k, p, p, r, l);
  }

  // ---------------------------------------------------------------- integers modulo q as a field

  /** phi keeps sums and products. */
  ghost predicate Respects<F(!new)>(k: Field<F>, phi: int -> F) {
    forall a: int, b: int {:trigger At2(a, b)} :: At2(a, b) ==>
      phi(a + b) == k.add(phi(a), phi(b)) && phi(a * b) == k.mul(phi(a), phi(b))
  }

  /** phi sends exactly the multiples of q to zero. */
  ghost predicate Vanishes<F>(k: Field<F>, q: nat, phi: int -> F)
    requires q > 0
  {
    forall a: int {:trigger At1(a)} :: At1(a) ==> (phi(a) == k.zero <==> Cong(a, 0, q))
  }

  /** lift picks a representative of every element. */
  ghost predicate Lifts<F(!new)>(q: nat, phi: int -> F, lift: F -> nat) {
    forall x: F {:trigger At1(x)} :: At1(x) ==> lift(x) < q && phi(lift(x)) == x
  }

  /** phi reduces integers modulo q. */
  ghost predicate IsReduction<F(!new)>(k: Field<F>, q: nat, phi: int -> F, lift: F -> nat) {
    q > 0 && IsField(k) && phi(1) == k.one && Respects(k, phi) && Vanishes(k, q, phi) && Lifts(q, phi, lift)
  }

  lemma PhiAdd<F(!new)>(k: Field<F>, q: nat, phi: int -> F, lift: F -> nat, a: int, b: int)
    requires IsReduction(k, q, phi, lift)
    ensures phi(a + b) == k.add(phi(a), phi(b)) && phi(a * b) == k.mul(phi(a), phi(b))
  {
    assert At2(a, b);
  }

  lemma PhiSub<F(!new)>(k: Field<F>, q: nat, phi: int -> F, lift: F -> nat, a: int, b: int)
    requires IsReduction(k, q, phi, lift)
    ensures phi(a - b) == k.Sub(phi(a), phi(b)) && phi(-b) == k.neg(phi(b))
  {
    PhiAdd(k, q, phi, lift, a - b, b);
    PhiAdd(k, q, phi, lift, -b, b);
    assert At1(0);
    CongRefl(0, q);
    MoveOver(k, phi(a - b), phi(b), phi(a));
    MoveOver(k, phi(-b), phi(b), k.zero);
    FAddZero(k, k.neg(phi(b)));
  }

  /** An integer vanishes modulo q exactly when its two parts are equal in the field. */
  lemma PhiZero<F(!new)>(k: Field<F>, q: nat, phi: int -> F, lift: F -> nat, a: int, b: int)
    requires IsReduction(k, q, phi, lift)
    ensures Cong(a - b, 0, q) <==> phi(a) == phi(b)
  {
    assert At1(a - b);
    PhiSub(k, q, phi, lift, a, b);
    FSubZero(k, phi(a), phi(b));
  }

  /** What the three gates mean in the field. */
  lemma SlopeMeans<F(!new)>(k: Field<F>, q: nat, phi: int -> F, lift: F -> nat,
                            px: int, py: int, rx: int, ry: int, l: int, sign: int)
    requires IsReduction(k, q, phi, lift) && (sign == 1 || sign == -1)
    ensures Cong(sign * ry - py - l * (rx - px), 0, q) <==>
            SlopeHolds(k, At(phi(px), phi(py)), At(phi(rx), phi(ry)), phi(l), sign == -1)
  {
    hide IsReduction, Cong;
    assert sign * ry == if sign == 1 then ry else -ry;
    PhiZero(k, q, phi, lift, sign * ry - py, l * (rx - px));
    PhiSub(k, q, phi, lift, sign * ry, py);
    PhiSub(k, q, phi, lift, 0, ry);
    PhiAdd(k, q, phi, lift, l, rx - px);
    PhiSub(k, q, phi, lift, rx, px);
  }

  lemma Lambda2Means<F(!new)>(k: Field<F>, q: nat, phi: int -> F, lift: F -> nat, px: int, qx: int, rx: int, l: int, y: F)
    requires IsReduction(k, q, phi, lift)
    ensures Cong(px + qx + rx - l * l, 0, q) <==>
            Lambda2Holds(k, At(phi(px), y), At(phi(qx), y), At(phi(rx), y), phi(l))
  {
    hide IsReduction, Cong;
    PhiZero(k, q, phi, lift, px + qx + rx, l * l);
    PhiAdd(k, q, phi, lift, px + qx, rx);
    PhiAdd(k, q, phi, lift, px, qx);
    PhiAdd(k, q, phi, lift, l, l);
  }

  lemma TangentMeans<F(!new)>(k: Field<F>, q: nat, phi: int -> F, lift: F -> nat, px: int, py: int, l: int)
    requires IsReduction(k, q, phi, lift)
    ensures Cong(3 * (px * px) - 2 * (py * l), 0, q) <==> TangentHolds(k, At(phi(px), phi(py)), phi(l))
  {
    hide IsReduction, Cong;
    var xx, yl := px * px, py * l;
    PhiZero(k, q, phi, lift, xx + xx + xx, yl + yl);
    PhiAdd(k, q, phi, lift, xx + xx, xx);
    PhiAdd(k, q, phi, lift, xx, xx);
    PhiAdd(k, q, phi, lift, yl, yl);
    PhiAdd(k, q, phi, lift, px, px);
    PhiAdd(k, q, phi, lift, py, l);
    assert 3 * xx - 2 * yl == xx + xx + xx - (yl + yl);
  }

  // ---------------------------------------------------------------- limbs

  /** Every number below base^n has n limbs. */
  lemma {:induction false} Represent(base: nat, cs: seq<int>, n: nat, v: nat) returns (xs: seq<int>)
    requires base >= 1 && n <= |cs| && v < IPow(base, n) && forall i :: 0 <= i < n ==> cs[i] == IPow(base, i)
    ensures InRange(xs, n, base) && Dot(cs, xs, n) == v
  {
    hide IPow, Dot;
    xs := [];
    DotNone(cs, xs, base);
    if n > 0 {
      var w := IPow(base, n - 1);
      IPowPositive(base, n - 1);
      IPowStep(base, n);
      DivMod(v, w);
      DivNonNegative(v, w);
      var d := v / w;
      if d >= base {
        MulLe(w, base, d);
      }
      var front := Represent(base, cs, n - 1, v % w);
      xs := front + [d];
      DotStep(cs, xs, n);
      DotSame(cs, xs, front, n - 1);
    }
  }

  lemma DotNone(cs: seq<int>, xs: seq<int>, base: nat)
    ensures Dot(cs, xs, 0) == 0 && IPow(base, 0) == 1
  {}

  lemma IPowStep(base: nat, n: nat)
    requires n > 0
    ensures IPow(base, n) == base * IPow(base, n - 1)
  {}

  lemma {:induction false} DotSame(cs: seq<int>, xs: seq<int>, ys: seq<int>, n: nat)
    requires n <= |cs| && n <= |xs| && n <= |ys| && forall i :: 0 <= i < n ==> xs[i] == ys[i]
    ensures Dot(cs, xs, n) == Dot(cs, ys, n)
  {
    if n > 0 {
      DotSame(cs, xs, ys, n - 1);
    }
  }

  lemma RepresentNumber(base: nat, n: nat, v: nat) returns (xs: seq<int>)
    requires base >= 1 && v < IPow(base, n)
    ensures InRange(xs, n, base) && Element(base, xs) == 1 + v
  {
    hide IPow, Dot, TruePowers;
    xs := Represent(base, TruePowers(base, n).single, n, v);
  }

  lemma PhiLift<F(!new)>(k: Field<F>, q: nat, phi: int -> F, lift: F -> nat, x: F)
    requires IsReduction(k, q, phi, lift)
    ensures q > 0 && lift(x) < q && phi(lift(x)) == x
  {
    assert At1(x);
  }

  /** Every field element is represented by limbs in range. */
  lemma RepresentElement<F(!new)>(k: Field<F>, q: nat, phi: int -> F, lift: F -> nat, base: nat, n: nat, x: F)
    returns (xs: seq<int>)
    requires IsReduction(k, q, phi, lift) && base >= 1 && q <= IPow(base, n)
    ensures InRange(xs, n, base) && phi(Element(base, xs)) == x
  {
    hide IsReduction, Cong, Element, IPow, InRange;
    PhiLift(k, q, phi, lift, x);
    var a := lift(x) - 1;
    DivMod(a, q);
    xs := RepresentNumber(base, n, a % q);
    PhiZero(k, q, phi, lift, 1 + a % q, 1 + a);
    CongMod(a, q);
    CongRefl(1, q);
    CongAdd(1, 1, a % q, a, q);
    CongDifference(1 + a % q, 1 + a, q);
  }

  lemma CongDifference(a: int, b: int, q: nat)
    requires q > 0
    ensures Cong(a, b, q) <==> Cong(a - b, 0, q)
  {}

  // ---------------------------------------------------------------- the chip

  /** Ranges for which the generator script reports a setting as valid. */
  ghost predicate ValidRanges(s: Setting, rcLen: nat, r: Ranges) {
    && WellFormed(s) && MainRange(s, rcLen, r.kMin, r.uMax) && AuxRanges(s, rcLen, r, |s.moduli|)
    && LcmFits(s, r.kMin, r.uMax, LcmOfPrefix(s.moduli, |s.moduli|)) && AllAuxFit(s, r, |s.moduli|)
  }

  /** A gate of the chip: its setting and ranges. */
  datatype ChipGate = ChipGate(setting: Setting, ranges: Ranges)

  ghost predicate IsChipGate(c: ChipGate, g: Gate, q: nat, base: nat, n: nat, rcLen: nat) {
    && c.setting.gate == g && c.setting.q == q && c.setting.base == base && c.setting.n == n
    && ValidRanges(c.setting, rcLen, c.ranges)
  }

  /** The constraints of a gate can be met for these limbs. */
  ghost predicate Enforced(c: ChipGate, l: Limbs) {
    WellFormed(c.setting) && Fits(c.setting.gate, l, c.setting.n, c.setting.base) && Satisfiable(c.setting, c.ranges, l)
  }

  lemma GateMeans(c: ChipGate, g: Gate, q: nat, base: nat, n: nat, rcLen: nat, l: Limbs)
    requires IsChipGate(c, g, q, base, n, rcLen) && Fits(g, l, n, base)
    ensures q > 0 && (Enforced(c, l) <==> Cong(Meaning(l, g, n, base), 0, q))
  {
    hide MainRange, AuxRanges, LcmFits, AllAuxFit, Satisfiable, Meaning, Cong, Fits;
    GateTheorem(c.setting, rcLen, c.ranges, l);
  }

  /** The point whose coordinates the limbs represent. */
  ghost function PointAt<F>(phi: int -> F, base: nat, x: seq<int>, y: seq<int>): Coords<F> {
    At(phi(Element(base, x)), phi(Element(base, y)))
  }

  ghost predicate Limbs6(x1: seq<int>, y1: seq<int>, x2: seq<int>, y2: seq<int>, x3: seq<int>, y3: seq<int>, n: nat, base: nat) {
    && InRange(x1, n, base) && InRange(y1, n, base) && InRange(x2, n, base) && InRange(y2, n, base)
    && InRange(x3, n, base) && InRange(y3, n, base)
  }

  /** The constraints of assert_add for one choice of lambda. */
  ghost predicate AddEnforced(
      slope: ChipGate, lambda2: ChipGate, px: seq<int>, py: seq<int>, qx: seq<int>, qy: seq<int>, rx: seq<int>, ry: seq<int>,
      lam: seq<int>)
  {
    && Enforced(slope, Slope(px, py, qx, qy, lam, 1))
    && Enforced(lambda2, Lambda2(px, qx, rx, lam))
    && Enforced(slope, Slope(px, py, rx, ry, lam, -1))
  }

  /** For one lambda the constraints are the three equations in the field. */
  lemma AddMeans<F(!new)>(
      k: Field<F>, q: nat, phi: int -> F, lift: F -> nat, base: nat, n: nat, rcLen: nat, slope: ChipGate, lambda2: ChipGate,
      px: seq<int>, py: seq<int>, qx: seq<int>, qy: seq<int>, rx: seq<int>, ry: seq<int>, lam: seq<int>)
    requires IsReduction(k, q, phi, lift) && Limbs6(px, py, qx, qy, rx, ry, n, base) && InRange(lam, n, base)
    requires IsChipGate(slope, SlopeGate, q, base, n, rcLen) && IsChipGate(lambda2, Lambda2Gate, q, base, n, rcLen)
    ensures var p, p2 := PointAt(phi, base, px, py), PointAt(phi, base, qx, qy);
            var r, l := PointAt(phi, base, rx, ry), phi(Element(base, lam));
            AddEnforced(slope, lambda2, px, py, qx, qy, rx, ry, lam) <==>
            SlopeHolds(k, p, p2, l, false) && Lambda2Holds(k, p, p2, r, l) && SlopeHolds(k, p, r, l, true)
  {
    hide IsReduction, Cong, Element, Enforced, IsChipGate;
    GateMeans(slope, SlopeGate, q, base, n, rcLen, Slope(px, py, qx, qy, lam, 1));
    GateMeans(lambda2, Lambda2Gate, q, base, n, rcLen, Lambda2(px, qx, rx, lam));
    GateMeans(slope, SlopeGate, q, base, n, rcLen, Slope(px, py, rx, ry, lam, -1));
    var l := Element(base, lam);
    SlopeMeans(k, q, phi, lift, Element(base, px), Element(base, py), Element(base, qx), Element(base, qy), l, 1);
    SlopeMeans(k, q, phi, lift, Element(base, px), Element(base, py), Element(base, rx), Element(base, ry), l, -1);
    Lambda2Means(k, q, phi, lift, Element(base, px), Element(base, qx), Element(base, rx), l, phi(l));
  }

  /** assert_add: for different affine points of the curve, its constraints can be met, for some lambda and some
      auxiliary values, if and only if r is the sum of p and q; in particular never if p and q are opposite. */
  lemma AssertAdd<F(!new)>(
      k: Field<F>, b: F, q: nat, phi: int -> F, lift: F -> nat, base: nat, n: nat, rcLen: nat,
      slope: ChipGate, lambda2: ChipGate,
      px: seq<int>, py: seq<int>, qx: seq<int>, qy: seq<int>, rx: seq<int>, ry: seq<int>)
    requires IsReduction(k, q, phi, lift) && k.add(k.one, k.one) != k.zero && base >= 1 && q <= IPow(base, n)
    requires IsChipGate(slope, SlopeGate, q, base, n, rcLen) && IsChipGate(lambda2, Lambda2Gate, q, base, n, rcLen)
    requires Limbs6(px, py, qx, qy, rx, ry, n, base)
    requires OnCurve(k, b, PointAt(phi, base, px, py)) && OnCurve(k, b, PointAt(phi, base, qx, qy))
    requires PointAt(phi, base, px, py) != PointAt(phi, base, qx, qy)
    ensures (exists lam: seq<int> :: InRange(lam, n, base) && AddEnforced(slope, lambda2, px, py, qx, qy, rx, ry, lam)) <==>
            IsSum(k, b, PointAt(phi, base, px, py), PointAt(phi, base, qx, qy), PointAt(phi, base, rx, ry))
  {
    ReductionField(k, q, phi, lift);
    hide IsReduction, IsField, Element, AddEnforced, IsChipGate, IsSum, SlopeHolds, Lambda2Holds, InRange, OnCurve, IPow;
    var p, p2, r := PointAt(phi, base, px, py), PointAt(phi, base, qx, qy), PointAt(phi, base, rx, ry);
    if lam: seq<int> :| InRange(lam, n, base) && AddEnforced(slope, lambda2, px, py, qx, qy, rx, ry, lam) {
      AddMeans(k, q, phi, lift, base, n, rcLen, slope, lambda2, px, py, qx, qy, rx, ry, lam);
      AddEquations(k, b, p, p2, r, phi(Element(base, lam)));
    }
    if IsSum(k, b, p, p2, r) {
      var l := AddSlope(k, b, p, p2, r);
      var lam := RepresentElement(k, q, phi, lift, base, n, l);
      AddMeans(k, q, phi, lift, base, n, rcLen, slope, lambda2, px, py, qx, qy, rx, ry, lam);
    }
  }

  lemma ReductionField<F(!new)>(k: Field<F>, q: nat, phi: int -> F, lift: F -> nat)
    requires IsReduction(k, q, phi, lift)
    ensures IsField(k)
  {}

  /** The constraints of assert_double for one choice of lambda. */
  ghost predicate DoubleEnforced(
      tangent: ChipGate, slope: ChipGate, lambda2: ChipGate, px: seq<int>, py: seq<int>, rx: seq<int>, ry: seq<int>, lam: seq<int>)
  {
    && Enforced(tangent, Tangent(px, py, lam))
    && Enforced(lambda2, Lambda2(px, px, rx, lam))
    && Enforced(slope, Slope(px, py, rx, ry, lam, -1))
  }

  lemma DoubleMeans<F(!new)>(
      k: Field<F>, q: nat, phi: int -> F, lift: F -> nat, base: nat, n: nat, rcLen: nat,
      tangent: ChipGate, slope: ChipGate, lambda2: ChipGate,
      px: seq<int>, py: seq<int>, rx: seq<int>, ry: seq<int>, lam: seq<int>)
    requires IsReduction(k, q, phi, lift) && Limbs6(px, py, px, py, rx, ry, n, base) && InRange(lam, n, base)
    requires IsChipGate(tangent, TangentGate, q, base, n, rcLen)
    requires IsChipGate(slope, SlopeGate, q, base, n, rcLen) && IsChipGate(lambda2, Lambda2Gate, q, base, n, rcLen)
    ensures var p, r, l := PointAt(phi, base, px, py), PointAt(phi, base, rx, ry), phi(Element(base, lam));
            DoubleEnforced(tangent, slope, lambda2, px, py, rx, ry, lam) <==>
            TangentHolds(k, p, l) && Lambda2Holds(k, p, p, r, l) && SlopeHolds(k, p, r, l, true)
  {
    hide IsReduction, Cong, Element, Enforced, IsChipGate;
    GateMeans(tangent, TangentGate, q, base, n, rcLen, Tangent(px, py, lam));
    GateMeans(lambda2, Lambda2Gate, q, base, n, rcLen, Lambda2(px, px, rx, lam));
    GateMeans(slope, SlopeGate, q, base, n, rcLen, Slope(px, py, rx, ry, lam, -1));
    var l := Element(base, lam);
    TangentMeans(k, q, phi, lift, Element(base, px), Element(base, py), l);
    SlopeMeans(k, q, phi, lift, Element(base, px), Element(base, py), Element(base, rx), Element(base, ry), l, -1);
    Lambda2Means(k, q, phi, lift, Element(base, px), Element(base, px), Element(base, rx), l, phi(l));
  }

  /** assert_double: its constraints can be met if and only if r is twice p; never at a point of order two. The
      absence of points of order three, which the chip assumes, is not needed. */
  lemma AssertDouble<F(!new)>(
      k: Field<F>, b: F, q: nat, phi: int -> F, lift: F -> nat, base: nat, n: nat, rcLen: nat,
      tangent: ChipGate, slope: ChipGate, lambda2: ChipGate,
      px: seq<int>, py: seq<int>, rx: seq<int>, ry: seq<int>)
    requires IsReduction(k, q, phi, lift) && base >= 1 && q <= IPow(base, n) && b != k.zero
    requires k.add(k.one, k.one) != k.zero && k.add(k.add(k.one, k.one), k.one) != k.zero
    requires IsChipGate(tangent, TangentGate, q, base, n, rcLen)
    requires IsChipGate(slope, SlopeGate, q, base, n, rcLen) && IsChipGate(lambda2, Lambda2Gate, q, base, n, rcLen)
    requires Limbs6(px, py, px, py, rx, ry, n, base) && OnCurve(k, b, PointAt(phi, base, px, py))
    ensures (exists lam: seq<int> :: InRange(lam, n, base) && DoubleEnforced(tangent, slope, lambda2, px, py, rx, ry, lam)) <==>
            IsSum(k, b, PointAt(phi, base, px, py), PointAt(phi, base, px, py), PointAt(phi, base, rx, ry))
  {
    ReductionField(k, q, phi, lift);
    hide IsReduction, IsField, Element, DoubleEnforced, IsChipGate, IsSum, SlopeHolds, Lambda2Holds, TangentHolds,
      InRange, OnCurve, IPow;
    var p, r := PointAt(phi, base, px, py), PointAt(phi, base, rx, ry);
    if lam: seq<int> :| InRange(lam, n, base) && DoubleEnforced(tangent, slope, lambda2, px, py, rx, ry, lam) {
      DoubleMeans(k, q, phi, lift, base, n, rcLen, tangent, slope, lambda2, px, py, rx, ry, lam);
      DoubleEquations(k, b, p, r, phi(Element(base, lam)));
    }
    if IsSum(k, b, p, p, r) {
      var l := DoubleSlope(k, b, p, r);
      var lam := RepresentElement(k, q, phi, lift, base, n, l);
      DoubleMeans(k, q, phi, lift, base, n, rcLen, tangent, slope, lambda2, px, py, rx, ry, lam);
    }
  }
}
