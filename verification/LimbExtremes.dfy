/** The derived bounds of the gate expressions are attained (circuits/scripts/foreign_params_gen.py,
    the *_expr_bounds functions). */
module LimbExtremes {
  import opened Numbers
  import opened LimbSums

  /** n limbs that are all equal to v. */
  ghost function Flat(n: nat, v: int): (xs: seq<int>)
    ensures |xs| == n && forall i :: 0 <= i < n ==> xs[i] == v
  {
    seq(n, _ => v)
  }

  lemma {:induction false} DotFlat(cs: seq<int>, xs: seq<int>, n: nat, v: int)
    requires n <= |cs| && n <= |xs| && forall i :: 0 <= i < n ==> xs[i] == v
    ensures Dot(cs, xs, n) == v * SumTo(cs, n)
  {
    if n > 0 {
      DotFlat(cs, xs, n - 1, v);
      assert v * (SumTo(cs, n - 1) + cs[n - 1]) == v * SumTo(cs, n - 1) + v * cs[n - 1];
    }
  }

  lemma {:induction false} QuadFlat(ds: seq<seq<int>>, xs: seq<int>, ys: seq<int>, n: nat, v: int, w: int)
    requires n <= |ds| && n <= |xs| && forall i :: 0 <= i < n ==> |ds[i]| == |ys| && xs[i] == v
    requires forall j :: 0 <= j < |ys| ==> ys[j] == w
    ensures Quad(ds, xs, ys, n) == v * w * RowSums(ds, n)
  {
    hide Dot, SumTo;
    if n > 0 {
      QuadFlat(ds, xs, ys, n - 1, v, w);
      DotFlat(ds[n - 1], ys, |ys|, w);
      RowFlat(v, w, SumTo(ds[n - 1], |ys|), RowSums(ds, n - 1));
    }
  }

  lemma RowFlat(v: int, w: int, s: int, rest: int)
    ensures v * w * (rest + s) == v * w * rest + v * (w * s)
  {
    MulAssoc(v, w, s);
  }

  /** Sums over limbs that are all 0 or all base - 1, chosen by a flag for each operand. */
  lemma FlatSums(pw: Powers, base: nat, lo: seq<int>, hi: seq<int>)
    requires Square(pw) && lo == Flat(|pw.single|, 0) && hi == Flat(|pw.single|, base - 1)
    ensures Lin(pw, lo) == Bil(pw, lo, lo) == Bil(pw, lo, hi) == Bil(pw, hi, lo) == 0
    ensures Lin(pw, hi) == (base - 1) * SumTo(pw.single, |pw.single|)
    ensures Bil(pw, hi, hi) == (base - 1) * (base - 1) * RowSums(pw.double, |pw.double|)
  {
    DotFlat(pw.single, lo, |lo|, 0);
    DotFlat(pw.single, hi, |hi|, base - 1);
    QuadFlat(pw.double, lo, lo, |lo|, 0, 0);
    QuadFlat(pw.double, lo, hi, |lo|, 0, base - 1);
    QuadFlat(pw.double, hi, lo, |hi|, base - 1, 0);
    QuadFlat(pw.double, hi, hi, |hi|, base - 1, base - 1);
  }

  /** For every gate there are limbs in range that reach the lower bound and limbs that reach the upper one. */
  lemma BoundsAttained(pw: Powers, g: Gate, base: nat) returns (low: Limbs, high: Limbs)
    requires NonNegative(pw) && base >= 1
    ensures Fits(g, low, |pw.single|, base) && Expr(pw, low, g, base) == ExprBounds(g, base, pw).0
    ensures Fits(g, high, |pw.single|, base) && Expr(pw, high, g, base) == ExprBounds(g, base, pw).1
  {
    var n := |pw.single|;
    var lo, hi := Flat(n, 0), Flat(n, base - 1);
    FlatSums(pw, base, lo, hi);
    hide Lin, Bil, SumTo, RowSums, Flat;
    match g
    case MulGate =>
      low, high := Mul(lo, lo, hi), Mul(hi, hi, lo);
    case TangentGate =>
      low, high := Tangent(lo, hi, hi), Tangent(hi, lo, lo);
    case Lambda2Gate =>
      low, high := Lambda2(lo, lo, lo, hi), Lambda2(hi, hi, hi, lo);
    case SlopeGate =>
      low, high := Slope(lo, hi, hi, hi, hi, -1), Slope(hi, lo, lo, hi, hi, 1);
  }
}
