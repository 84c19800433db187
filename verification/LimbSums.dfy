/** Weighted sums of limbs and the four identities that the foreign-field gates enforce
    (circuits/scripts/foreign_params_gen.py, the *_expr_bounds functions). */
module LimbSums {
  import opened Numbers

  /** sum of the first n entries */
  function SumTo(xs: seq<int>, n: nat): int
    requires n <= |xs|
  {
    if n == 0 then 0 else SumTo(xs, n - 1) + xs[n - 1]
  }

  function RowSums(rows: seq<seq<int>>, n: nat): int
    requires n <= |rows|
  {
    if n == 0 then 0 else RowSums(rows, n - 1) + SumTo(rows[n - 1], |rows[n - 1]|)
  }

  /** sum of cs[i] * xs[i] for i < n */
  ghost function Dot(cs: seq<int>, xs: seq<int>, n: nat): int
    requires n <= |cs| && n <= |xs|
  {
    if n == 0 then 0 else Dot(cs, xs, n - 1) + cs[n - 1] * xs[n - 1]
  }

  /** sum of ds[i][j] * xs[i] * ys[j] for i < n and all j */
  ghost function Quad(ds: seq<seq<int>>, xs: seq<int>, ys: seq<int>, n: nat): int
    requires n <= |ds| && n <= |xs| && forall i :: 0 <= i < n ==> |ds[i]| == |ys|
  {
    if n == 0 then 0 else Quad(ds, xs, ys, n - 1) + xs[n - 1] * Dot(ds[n - 1], ys, |ys|)
  }

  /** Coefficients base^i and base^(i+j), possibly reduced. */
  datatype Powers = Powers(single: seq<int>, double: seq<seq<int>>)

  ghost predicate Square(pw: Powers) {
    |pw.double| == |pw.single| && forall i :: 0 <= i < |pw.double| ==> |pw.double[i]| == |pw.single|
  }

  ghost predicate NonNegative(pw: Powers) {
    && Square(pw)
    && (forall i :: 0 <= i < |pw.single| ==> pw.single[i] >= 0)
    && (forall i, j :: 0 <= i < |pw.double| && 0 <= j < |pw.double[i]| ==> pw.double[i][j] >= 0)
  }

  /** Operands of the four gates, as limb vectors. */
  datatype Limbs =
    | Mul(x: seq<int>, y: seq<int>, z: seq<int>)
    | Tangent(px: seq<int>, py: seq<int>, lam: seq<int>)
    | Lambda2(px: seq<int>, qx: seq<int>, rx: seq<int>, lam: seq<int>)
    | Slope(px: seq<int>, py: seq<int>, qx: seq<int>, qy: seq<int>, lam: seq<int>, sign: int)

  datatype Gate = MulGate | TangentGate | Lambda2Gate | SlopeGate

  ghost predicate InRange(xs: seq<int>, n: nat, base: nat) {
    |xs| == n && forall i :: 0 <= i < n ==> 0 <= xs[i] < base
  }

  /** The operands fit the gate: n limbs in [0, base) each, and a sign of plus or minus one. */
  ghost predicate Fits(g: Gate, l: Limbs, n: nat, base: nat) {
    match l
    case Mul(x, y, z) => g == MulGate && InRange(x, n, base) && InRange(y, n, base) && InRange(z, n, base)
    case Tangent(px, py, lam) =>
      g == TangentGate && InRange(px, n, base) && InRange(py, n, base) && InRange(lam, n, base)
    case Lambda2(px, qx, rx, lam) =>
      && g == Lambda2Gate && InRange(px, n, base) && InRange(qx, n, base) && InRange(rx, n, base)
      && InRange(lam, n, base)
    case Slope(px, py, qx, qy, lam, sign) =>
      && g == SlopeGate && InRange(px, n, base) && InRange(py, n, base) && InRange(qx, n, base)
      && InRange(qy, n, base) && InRange(lam, n, base) && (sign == 1 || sign == -1)
  }

  ghost function Lin(pw: Powers, x: seq<int>): int
    requires |x| == |pw.single|
  {
    Dot(pw.single, x, |x|)
  }

  ghost function Bil(pw: Powers, x: seq<int>, y: seq<int>): int
    requires Square(pw) && |x| == |y| == |pw.single|
  {
    Quad(pw.double, x, y, |x|)
  }

  /** The expression that the gate sets to a multiple of the modulus. */
  ghost function Expr(pw: Powers, l: Limbs, g: Gate, base: nat): int
    requires Square(pw) && Fits(g, l, |pw.single|, base)
  {
    match l
    case Mul(x, y, z) => Bil(pw, x, y) + Lin(pw, x) + Lin(pw, y) - Lin(pw, z)
    case Tangent(px, py, lam) =>
      3 * (2 * Lin(pw, px) + Bil(pw, px, px)) + 1 - 2 * (Lin(pw, py) + Lin(pw, lam) + Bil(pw, lam, py))
    case Lambda2(px, qx, rx, lam) =>
      2 + Lin(pw, px) + Lin(pw, qx) + Lin(pw, rx) - (2 * Lin(pw, lam) + Bil(pw, lam, lam))
    case Slope(px, py, qx, qy, lam, sign) =>
      sign - 1 + sign * Lin(pw, qy) - Lin(pw, py) - Lin(pw, qx) + Lin(pw, px) - Bil(pw, lam, qx) + Bil(pw, lam, px)
  }

  /** The bounds that the script derives for the expression. */
  function ExprBounds(g: Gate, base: nat, pw: Powers): (int, int) {
    var m1 := (base - 1) * SumTo(pw.single, |pw.single|);
    var m2 := (base - 1) * (base - 1) * RowSums(pw.double, |pw.double|);
    match g
    case MulGate => (-m1, m2 + m1 + m1)
    case TangentGate => (-2 * (m1 + m1 + m2) + 1, 3 * (m1 + m1 + m2) + 1)
    case Lambda2Gate => (2 - (2 * m1 + m2), 2 + m1 + m1 + m1)
    case SlopeGate => (-(2 + m1 + m1 + m1 + m2), m1 + m1 + m2)
  }

  // ---------------------------------------------------------------- bounds

  lemma {:induction false} DotBounds(cs: seq<int>, xs: seq<int>, n: nat, base: nat)
    requires n <= |cs| && n <= |xs| && base >= 1
    requires forall i :: 0 <= i < n ==> cs[i] >= 0 && 0 <= xs[i] < base
    ensures 0 <= Dot(cs, xs, n) <= (base - 1) * SumTo(cs, n)
    ensures SumTo(cs, n) >= 0
  {
    if n > 0 {
      DotBounds(cs, xs, n - 1, base);
      var c, x := cs[n - 1], xs[n - 1];
      MulLe(c, x, base - 1);
      MulLe(c, 0, x);
      assert (base - 1) * (SumTo(cs, n - 1) + c) == (base - 1) * SumTo(cs, n - 1) + (base - 1) * c;
    }
  }

  lemma {:induction false} QuadBounds(ds: seq<seq<int>>, xs: seq<int>, ys: seq<int>, n: nat, base: nat)
    requires n <= |ds| && n <= |xs| && base >= 1
    requires forall i :: 0 <= i < n ==> |ds[i]| == |ys| && 0 <= xs[i] < base
    requires forall j :: 0 <= j < |ys| ==> 0 <= ys[j] < base
    requires forall i, j :: 0 <= i < n && 0 <= j < |ds[i]| ==> ds[i][j] >= 0
    ensures 0 <= Quad(ds, xs, ys, n) <= (base - 1) * (base - 1) * RowSums(ds, n)
    ensures RowSums(ds, n) >= 0
  {
    if n > 0 {
      QuadBounds(ds, xs, ys, n - 1, base);
      var row, x, b := ds[n - 1], xs[n - 1], base - 1;
      DotBounds(row, ys, |ys|, base);
      var d, s := Dot(row, ys, |ys|), SumTo(row, |row|);
      MulLe(d, x, b);
      MulLe(d, 0, x);
      MulLe(b, d, b * s);
      MulAssoc(b, b, s);
      assert b * b * (RowSums(ds, n - 1) + s) == b * b * RowSums(ds, n - 1) + b * b * s;
    }
  }

  lemma LinBounds(pw: Powers, x: seq<int>, base: nat)
    requires NonNegative(pw) && InRange(x, |pw.single|, base) && base >= 1
    ensures 0 <= Lin(pw, x) <= (base - 1) * SumTo(pw.single, |pw.single|)
  {
    DotBounds(pw.single, x, |x|, base);
  }

  lemma BilBounds(pw: Powers, x: seq<int>, y: seq<int>, base: nat)
    requires NonNegative(pw) && InRange(x, |pw.single|, base) && InRange(y, |pw.single|, base) && base >= 1
    ensures 0 <= Bil(pw, x, y) <= (base - 1) * (base - 1) * RowSums(pw.double, |pw.double|)
  {
    QuadBounds(pw.double, x, y, |x|, base);
  }

  /** The derived bounds hold for all limbs in range. */
  lemma ExprInBounds(pw: Powers, l: Limbs, g: Gate, base: nat)
    requires NonNegative(pw) && base >= 1 && Fits(g, l, |pw.single|, base)
    ensures ExprBounds(g, base, pw).0 <= Expr(pw, l, g, base) <= ExprBounds(g, base, pw).1
  {
    hide SumTo, RowSums, Dot, Quad, Lin, Bil;
    match l
    case Mul(x, y, z) =>
      BilBounds(pw, x, y, base);
      LinBounds(pw, x, base);
      LinBounds(pw, y, base);
      LinBounds(pw, z, base);
    case Tangent(px, py, lam) =>
      BilBounds(pw, px, px, base);
      BilBounds(pw, lam, py, base);
      LinBounds(pw, px, base);
      LinBounds(pw, py, base);
      LinBounds(pw, lam, base);
    case Lambda2(px, qx, rx, lam) =>
      BilBounds(pw, lam, lam, base);
      LinBounds(pw, px, base);
      LinBounds(pw, qx, base);
      LinBounds(pw, rx, base);
      LinBounds(pw, lam, base);
    case Slope(px, py, qx, qy, lam, sign) =>
      BilBounds(pw, lam, qx, base);
      BilBounds(pw, lam, px, base);
      LinBounds(pw, px, base);
      LinBounds(pw, py, base);
      LinBounds(pw, qx, base);
      LinBounds(pw, qy, base);
  }

  // ---------------------------------------------------------------- congruences

  ghost predicate CongPowers(a: Powers, b: Powers, m: int)
    requires m > 0
  {
    && Square(a) && Square(b) && |a.single| == |b.single|
    && (forall i :: 0 <= i < |a.single| ==> Cong(a.single[i], b.single[i], m))
    && (forall i, j :: 0 <= i < |a.double| && 0 <= j < |a.single| ==> Cong(a.double[i][j], b.double[i][j], m))
  }

  lemma {:induction false} DotCong(cs: seq<int>, cs': seq<int>, xs: seq<int>, n: nat, m: int)
    requires m > 0 && n <= |cs| && n <= |cs'| && n <= |xs|
    requires forall i :: 0 <= i < n ==> Cong(cs[i], cs'[i], m)
    ensures Cong(Dot(cs, xs, n), Dot(cs', xs, n), m)
  {
    if n == 0 {
      CongRefl(0, m);
    } else {
      DotCong(cs, cs', xs, n - 1, m);
      CongRefl(xs[n - 1], m);
      CongMul(cs[n - 1], cs'[n - 1], xs[n - 1], xs[n - 1], m);
      CongAdd(Dot(cs, xs, n - 1), Dot(cs', xs, n - 1), cs[n - 1] * xs[n - 1], cs'[n - 1] * xs[n - 1], m);
    }
  }

  lemma {:induction false} QuadCong(ds: seq<seq<int>>, ds': seq<seq<int>>, xs: seq<int>, ys: seq<int>, n: nat, m: int)
    requires m > 0 && n <= |ds| && n <= |ds'| && n <= |xs|
    requires forall i :: 0 <= i < n ==> |ds[i]| == |ds'[i]| == |ys|
    requires forall i, j :: 0 <= i < n && 0 <= j < |ys| ==> Cong(ds[i][j], ds'[i][j], m)
    ensures Cong(Quad(ds, xs, ys, n), Quad(ds', xs, ys, n), m)
  {
    if n == 0 {
      CongRefl(0, m);
    } else {
      QuadCong(ds, ds', xs, ys, n - 1, m);
      var d, d' := Dot(ds[n - 1], ys, |ys|), Dot(ds'[n - 1], ys, |ys|);
      DotCong(ds[n - 1], ds'[n - 1], ys, |ys|, m);
      CongRefl(xs[n - 1], m);
      CongMul(xs[n - 1], xs[n - 1], d, d', m);
      CongAdd(Quad(ds, xs, ys, n - 1), Quad(ds', xs, ys, n - 1), xs[n - 1] * d, xs[n - 1] * d', m);
    }
  }

  lemma LinCong(a: Powers, b: Powers, x: seq<int>, m: int)
    requires m > 0 && CongPowers(a, b, m) && |x| == |a.single|
    ensures Cong(Lin(a, x), Lin(b, x), m)
  {
    DotCong(a.single, b.single, x, |x|, m);
  }

  lemma BilCong(a: Powers, b: Powers, x: seq<int>, y: seq<int>, m: int)
    requires m > 0 && CongPowers(a, b, m) && |x| == |y| == |a.single|
    ensures Cong(Bil(a, x, y), Bil(b, x, y), m)
  {
    QuadCong(a.double, b.double, x, y, |x|, m);
  }

  lemma CongScale(c: int, a: int, b: int, m: int)
    requires m > 0 && Cong(a, b, m)
    ensures Cong(c * a, c * b, m)
  {
    CongRefl(c, m);
    CongMul(c, c, a, b, m);
  }

  /** Congruent coefficients give congruent expressions. */
  lemma ExprCong(a: Powers, b: Powers, l: Limbs, g: Gate, base: nat, m: int)
    requires m > 0 && CongPowers(a, b, m) && Fits(g, l, |a.single|, base)
    ensures Cong(Expr(a, l, g, base), Expr(b, l, g, base), m)
  {
    hide Cong, Lin, Bil;
    match l
    case Mul(x, y, z) =>
      BilCong(a, b, x, y, m);
      LinCong(a, b, x, m);
      LinCong(a, b, y, m);
      LinCong(a, b, z, m);
      CongAdd(Bil(a, x, y), Bil(b, x, y), Lin(a, x), Lin(b, x), m);
      CongAdd(Bil(a, x, y) + Lin(a, x), Bil(b, x, y) + Lin(b, x), Lin(a, y), Lin(b, y), m);
      CongAdd(Bil(a, x, y) + Lin(a, x) + Lin(a, y), Bil(b, x, y) + Lin(b, x) + Lin(b, y), Lin(a, z), Lin(b, z), m);
    case Tangent(px, py, lam) =>
      TangentCong(a, b, px, py, lam, m);
    case Lambda2(px, qx, rx, lam) =>
      Lambda2Cong(a, b, px, qx, rx, lam, m);
    case Slope(px, py, qx, qy, lam, sign) =>
      SlopeCong(a, b, px, py, qx, qy, lam, sign, m);
  }

  lemma TangentCong(a: Powers, b: Powers, px: seq<int>, py: seq<int>, lam: seq<int>, m: int)
    requires m > 0 && CongPowers(a, b, m) && |px| == |py| == |lam| == |a.single|
    ensures Cong(3 * (2 * Lin(a, px) + Bil(a, px, px)) + 1 - 2 * (Lin(a, py) + Lin(a, lam) + Bil(a, lam, py)),
                 3 * (2 * Lin(b, px) + Bil(b, px, px)) + 1 - 2 * (Lin(b, py) + Lin(b, lam) + Bil(b, lam, py)), m)
  {
    hide Cong, Lin, Bil;
    LinCong(a, b, px, m);
    LinCong(a, b, py, m);
    LinCong(a, b, lam, m);
    BilCong(a, b, px, px, m);
    BilCong(a, b, lam, py, m);
    var u, u' := 2 * Lin(a, px) + Bil(a, px, px), 2 * Lin(b, px) + Bil(b, px, px);
    CongScale(2, Lin(a, px), Lin(b, px), m);
    CongAdd(2 * Lin(a, px), 2 * Lin(b, px), Bil(a, px, px), Bil(b, px, px), m);
    CongScale(3, u, u', m);
    var w, w' := Lin(a, py) + Lin(a, lam), Lin(b, py) + Lin(b, lam);
    CongAdd(Lin(a, py), Lin(b, py), Lin(a, lam), Lin(b, lam), m);
    CongAdd(w, w', Bil(a, lam, py), Bil(b, lam, py), m);
    CongScale(2, w + Bil(a, lam, py), w' + Bil(b, lam, py), m);
    CongRefl(1, m);
    CongAdd(3 * u, 3 * u', 1, 1, m);
    CongAdd(3 * u + 1, 3 * u' + 1, 2 * (w + Bil(a, lam, py)), 2 * (w' + Bil(b, lam, py)), m);
  }

  lemma Lambda2Cong(a: Powers, b: Powers, px: seq<int>, qx: seq<int>, rx: seq<int>, lam: seq<int>, m: int)
    requires m > 0 && CongPowers(a, b, m) && |px| == |qx| == |rx| == |lam| == |a.single|
    ensures Cong(2 + Lin(a, px) + Lin(a, qx) + Lin(a, rx) - (2 * Lin(a, lam) + Bil(a, lam, lam)),
                 2 + Lin(b, px) + Lin(b, qx) + Lin(b, rx) - (2 * Lin(b, lam) + Bil(b, lam, lam)), m)
  {
    hide Cong, Lin, Bil;
    LinCong(a, b, px, m);
    LinCong(a, b, qx, m);
    LinCong(a, b, rx, m);
    LinCong(a, b, lam, m);
    BilCong(a, b, lam, lam, m);
    CongRefl(2, m);
    CongAdd(2, 2, Lin(a, px), Lin(b, px), m);
    CongAdd(2 + Lin(a, px), 2 + Lin(b, px), Lin(a, qx), Lin(b, qx), m);
    var u, u' := 2 + Lin(a, px) + Lin(a, qx), 2 + Lin(b, px) + Lin(b, qx);
    CongAdd(u, u', Lin(a, rx), Lin(b, rx), m);
    CongScale(2, Lin(a, lam), Lin(b, lam), m);
    CongAdd(2 * Lin(a, lam), 2 * Lin(b, lam), Bil(a, lam, lam), Bil(b, lam, lam), m);
    CongAdd(u + Lin(a, rx), u' + Lin(b, rx), 2 * Lin(a, lam) + Bil(a, lam, lam), 2 * Lin(b, lam) + Bil(b, lam, lam), m);
  }

  lemma SlopeCong(
      a: Powers, b: Powers, px: seq<int>, py: seq<int>, qx: seq<int>, qy: seq<int>, lam: seq<int>, sign: int, m: int)
    requires m > 0 && CongPowers(a, b, m) && |px| == |py| == |qx| == |qy| == |lam| == |a.single|
    ensures Cong(sign - 1 + sign * Lin(a, qy) - Lin(a, py) - Lin(a, qx) + Lin(a, px) - Bil(a, lam, qx) + Bil(a, lam, px),
                 sign - 1 + sign * Lin(b, qy) - Lin(b, py) - Lin(b, qx) + Lin(b, px) - Bil(b, lam, qx) + Bil(b, lam, px), m)
  {
    hide Cong, Lin, Bil;
    LinCong(a, b, px, m);
    LinCong(a, b, py, m);
    LinCong(a, b, qx, m);
    LinCong(a, b, qy, m);
    BilCong(a, b, lam, qx, m);
    BilCong(a, b, lam, px, m);
    CongScale(sign, Lin(a, qy), Lin(b, qy), m);
    CongRefl(sign - 1, m);
    var u0, v0 := sign - 1 + sign * Lin(a, qy), sign - 1 + sign * Lin(b, qy);
    CongAdd(sign - 1, sign - 1, sign * Lin(a, qy), sign * Lin(b, qy), m);
    var u1, v1 := u0 - Lin(a, py), v0 - Lin(b, py);
    CongAdd(u0, v0, Lin(a, py), Lin(b, py), m);
    var u2, v2 := u1 - Lin(a, qx), v1 - Lin(b, qx);
    CongAdd(u1, v1, Lin(a, qx), Lin(b, qx), m);
    var u3, v3 := u2 + Lin(a, px), v2 + Lin(b, px);
    CongAdd(u2, v2, Lin(a, px), Lin(b, px), m);
    var u4, v4 := u3 - Bil(a, lam, qx), v3 - Bil(b, lam, qx);
    CongAdd(u3, v3, Bil(a, lam, qx), Bil(b, lam, qx), m);
    CongAdd(u4, v4, Bil(a, lam, px), Bil(b, lam, px), m);
  }

  // ---------------------------------------------------------------- meaning

  /** Powers of the base without reduction. */
  ghost function TruePowers(base: nat, n: nat): (pw: Powers)
    ensures Square(pw) && |pw.single| == n
    ensures forall i :: 0 <= i < n ==> pw.single[i] == IPow(base, i)
    ensures forall i, j :: 0 <= i < n && 0 <= j < n ==> pw.double[i][j] == IPow(base, i + j)
  {
    Powers(seq(n, i requires 0 <= i < n => IPow(base, i)),
           seq(n, i requires 0 <= i < n => seq(n, j requires 0 <= j < n => IPow(base, i + j))))
  }

  /** A limb vector stands for 1 + sum of base^i * x[i]. */
  ghost function Element(base: nat, x: seq<int>): int {
    1 + Lin(TruePowers(base, |x|), x)
  }

  /** What the gate is meant to assert about the represented elements, as an integer that must vanish. */
  ghost function Meaning(l: Limbs, g: Gate, n: nat, base: nat): int
    requires Fits(g, l, n, base)
  {
    match l
    case Mul(x, y, z) => Element(base, x) * Element(base, y) - Element(base, z)
    case Tangent(px, py, lam) =>
      3 * (Element(base, px) * Element(base, px)) - 2 * (Element(base, py) * Element(base, lam))
    case Lambda2(px, qx, rx, lam) =>
      Element(base, px) + Element(base, qx) + Element(base, rx) - Element(base, lam) * Element(base, lam)
    case Slope(px, py, qx, qy, lam, sign) =>
      sign * Element(base, qy) - Element(base, py) - Element(base, lam) * (Element(base, qx) - Element(base, px))
  }

  lemma FactorTerm(p: int, d: int, s: int, y: int)
    ensures p * d + p * s * y == p * (d + s * y)
  {
    MulAssoc(p, s, y);
  }

  lemma FactorProduct(a: int, p: int, x: int, d: int)
    ensures a * d + x * (p * d) == (a + p * x) * d
  {
    MulAssoc(x, p, d);
    MulAssoc(p, x, d);
  }

  lemma DotStep(cs: seq<int>, xs: seq<int>, n: nat)
    requires n <= |cs| && n <= |xs|
    ensures Dot(cs, xs, n) == if n == 0 then 0 else Dot(cs, xs, n - 1) + cs[n - 1] * xs[n - 1]
  {}

  lemma {:induction false} DotFactor(base: nat, i: nat, row: seq<int>, single: seq<int>, ys: seq<int>, n: nat)
    requires n <= |row| && n <= |ys| && n <= |single|
    requires forall j :: 0 <= j < n ==> row[j] == IPow(base, i + j) && single[j] == IPow(base, j)
    ensures Dot(row, ys, n) == IPow(base, i) * Dot(single, ys, n)
  {
    hide IPow, Dot;
    DotStep(row, ys, n);
    DotStep(single, ys, n);
    if n > 0 {
      DotFactor(base, i, row, single, ys, n - 1);
      IPowAdd(base, i, n - 1);
      FactorTerm(IPow(base, i), Dot(single, ys, n - 1), IPow(base, n - 1), ys[n - 1]);
    }
  }

  lemma RowFactor(base: nat, i: nat, ys: seq<int>)
    requires i < |ys|
    ensures var pw := TruePowers(base, |ys|);
            pw.single[i] == IPow(base, i) && Dot(pw.double[i], ys, |ys|) == IPow(base, i) * Dot(pw.single, ys, |ys|)
  {
    var pw := TruePowers(base, |ys|);
    hide Dot, IPow, TruePowers;
    DotFactor(base, i, pw.double[i], pw.single, ys, |ys|);
  }

  lemma {:induction false} QuadFactor(base: nat, pw: Powers, xs: seq<int>, ys: seq<int>, n: nat)
    requires n <= |xs| && |xs| == |ys| == |pw.single| && pw == TruePowers(base, |xs|)
    ensures Quad(pw.double, xs, ys, n) == Dot(pw.single, xs, n) * Dot(pw.single, ys, |ys|)
  {
    hide IPow, TruePowers;
    if n > 0 {
      QuadFactor(base, pw, xs, ys, n - 1);
      RowFactor(base, n - 1, ys);
      FactorProduct(Dot(pw.single, xs, n - 1), IPow(base, n - 1), xs[n - 1], Dot(pw.single, ys, |ys|));
    }
  }

  /** The bilinear sum of two limb vectors is the product of their linear sums. */
  lemma BilIsProduct(base: nat, x: seq<int>, y: seq<int>)
    requires |x| == |y|
    ensures var pw := TruePowers(base, |x|); Bil(pw, x, y) == Lin(pw, x) * Lin(pw, y)
  {
    QuadFactor(base, TruePowers(base, |x|), x, y, |x|);
  }

  lemma Expand(a: int, b: int)
    ensures (1 + a) * (1 + b) == 1 + a + b + a * b
  {}

  /** With unreduced powers the expression is exactly the intended identity. */
  lemma ExprIsMeaning(l: Limbs, g: Gate, n: nat, base: nat)
    requires Fits(g, l, n, base)
    ensures Expr(TruePowers(base, n), l, g, base) == Meaning(l, g, n, base)
  {
    hide Lin, Bil, IPow;
    var pw := TruePowers(base, n);
    match l
    case Mul(x, y, z) =>
      BilIsProduct(base, x, y);
      Expand(Lin(pw, x), Lin(pw, y));
    case Tangent(px, py, lam) =>
      BilIsProduct(base, px, px);
      BilIsProduct(base, lam, py);
      Expand(Lin(pw, px), Lin(pw, px));
      Expand(Lin(pw, py), Lin(pw, lam));
    case Lambda2(px, qx, rx, lam) =>
      BilIsProduct(base, lam, lam);
      Expand(Lin(pw, lam), Lin(pw, lam));
    case Slope(px, py, qx, qy, lam, sign) =>
      BilIsProduct(base, lam, qx);
      BilIsProduct(base, lam, px);
      SlopeExpand(sign, Lin(pw, qy), Lin(pw, lam), Lin(pw, qx), Lin(pw, px));
  }

  lemma SlopeExpand(sign: int, qy: int, lam: int, qx: int, px: int)
    ensures sign * (1 + qy) == sign + sign * qy
    ensures (1 + lam) * ((1 + qx) - (1 + px)) == qx - px + lam * qx - lam * px
  {}
}
