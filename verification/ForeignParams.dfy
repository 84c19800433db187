/** Range parameters of the foreign-field gates (circuits/scripts/foreign_params_gen.py, Params):
    equations checked modulo the native prime, with range-checked quotients, force an equation
    modulo the emulated prime. */
module ForeignParams {
  import opened Numbers
  import opened Divisibility
  import opened RangeCost
  import opened LimbSums
  import opened LimbExtremes

  datatype Setting = Setting(gate: Gate, p: nat, q: nat, base: nat, n: nat, moduli: seq<nat>)

  datatype Validity = ValidParameters | NotEnoughModuli | InvalidAuxModulus

  ghost predicate WellFormed(s: Setting) {
    s.p > 0 && s.q > 0 && s.base >= 1 && forall i :: 0 <= i < |s.moduli| ==> s.moduli[i] > 0
  }

  // ---------------------------------------------------------------- coefficients

  /** Every coefficient is less than m. */
  ghost predicate Below(pw: Powers, m: nat) {
    && (forall i :: 0 <= i < |pw.single| ==> pw.single[i] < m)
    && (forall i, j :: 0 <= i < |pw.double| && 0 <= j < |pw.double[i]| ==> pw.double[i][j] < m)
  }

  /** base^i % q and base^(i+j) % q */
  function BasePowers(s: Setting): (pw: Powers)
    requires s.q > 0
    ensures NonNegative(pw) && |pw.single| == s.n && Below(pw, s.q)
    ensures CongPowers(pw, TruePowers(s.base, s.n), s.q)
  {
    PowersMod(s);
    Powers(seq(s.n, i requires 0 <= i < s.n => IPow(s.base, i) % s.q),
           seq(s.n, i requires 0 <= i < s.n => seq(s.n, j requires 0 <= j < s.n => IPow(s.base, i + j) % s.q)))
  }

  lemma PowersMod(s: Setting)
    requires s.q > 0
    ensures forall i: nat :: 0 <= IPow(s.base, i) % s.q < s.q && Cong(IPow(s.base, i) % s.q, IPow(s.base, i), s.q)
  {
    forall i: nat
      ensures 0 <= IPow(s.base, i) % s.q < s.q && Cong(IPow(s.base, i) % s.q, IPow(s.base, i), s.q)
    {
      CongMod(IPow(s.base, i), s.q);
    }
  }

  /** Every coefficient reduced once more, modulo m. */
  function Reduce(pw: Powers, m: nat): (r: Powers)
    requires m > 0
    ensures Square(pw) ==> NonNegative(r) && |r.single| == |pw.single| && Below(r, m) && CongPowers(r, pw, m)
  {
    ModCong(m);
    Powers(seq(|pw.single|, i requires 0 <= i < |pw.single| => pw.single[i] % m),
           seq(|pw.double|, i requires 0 <= i < |pw.double| =>
             seq(|pw.double[i]|, j requires 0 <= j < |pw.double[i]| => pw.double[i][j] % m)))
  }

  lemma ModCong(m: nat)
    requires m > 0
    ensures forall x: int {:trigger Cong(x % m, x, m)} :: Cong(x % m, x, m)
  {
    forall x: int
      ensures Cong(x % m, x, m)
    {
      CongMod(x, m);
    }
  }

  function Bounds(s: Setting): (int, int)
    requires s.q > 0
  {
    ExprBounds(s.gate, s.base, BasePowers(s))
  }

  function AuxBounds(s: Setting, m: nat): (int, int)
    requires s.q > 0 && m > 0
  {
    ExprBounds(s.gate, s.base, Reduce(BasePowers(s), m))
  }

  // ---------------------------------------------------------------- ranges

  function Abs(x: int): nat { if x >= 0 then x else -x }

  /** The least and greatest value of an auxiliary expression before its quotient is subtracted. */
  function AuxLow(s: Setting, kMin: int, uMax: nat, m: nat): int
    requires s.q > 0 && m > 0
  {
    AuxBounds(s, m).0 - uMax * (s.q % m) - (kMin * s.q) % m
  }

  function AuxHigh(s: Setting, kMin: int, m: nat): int
    requires s.q > 0 && m > 0
  {
    AuxBounds(s, m).1 - (kMin * s.q) % m
  }

  ghost predicate AuxRange(s: Setting, rcLen: nat, kMin: int, uMax: nat, m: nat, lMin: int, vMax: nat)
    requires s.q > 0
  {
    && m > 0
    && lMin == -(Abs(AuxLow(s, kMin, uMax, m)) / m)
    && vMax == NextCheapest(rcLen, AuxHigh(s, kMin, m) / m - lMin + 1)
  }

  /** No value of the auxiliary equation reaches the native modulus. */
  predicate AuxFits(s: Setting, kMin: int, uMax: nat, m: nat, lMin: int, vMax: nat)
    requires s.q > 0 && m > 0
  {
    s.p > Max(-(AuxLow(s, kMin, uMax, m) - (vMax + lMin) * m), AuxHigh(s, kMin, m) - lMin * m)
  }

  /** No value of the main equation reaches the least common multiple. */
  predicate LcmFits(s: Setting, kMin: int, uMax: nat, lcm: nat)
    requires s.q > 0
  {
    lcm > Max(-(Bounds(s).0 - (uMax + kMin) * s.q), Bounds(s).1 - kMin * s.q)
  }

  /** The moduli that need an auxiliary equation, in order: the first i without the native one. */
  ghost function Others(s: Setting, i: nat): seq<nat>
    requires i <= |s.moduli|
  {
    if i == 0 then []
    else if s.moduli[i - 1] == s.p then Others(s, i - 1)
    else Others(s, i - 1) + [s.moduli[i - 1]]
  }

  /** The ranges that the script hands to the circuit. */
  datatype Ranges = Ranges(kMin: int, uMax: nat, lsMin: seq<int>, vsMax: seq<nat>)

  ghost predicate MainRange(s: Setting, rcLen: nat, kMin: int, uMax: nat)
    requires s.q > 0
  {
    && kMin == -(Abs(Bounds(s).0) / s.q)
    && uMax == NextCheapest(rcLen, Bounds(s).1 / s.q - kMin + 1)
  }

  /** The auxiliary ranges of the first i moduli. */
  ghost predicate AuxRanges(s: Setting, rcLen: nat, r: Ranges, i: nat)
    requires s.q > 0 && i <= |s.moduli|
  {
    && |r.lsMin| == |r.vsMax| == |Others(s, i)|
    && forall j :: 0 <= j < |r.lsMin| ==>
         AuxRange(s, rcLen, r.kMin, r.uMax, Others(s, i)[j], r.lsMin[j], r.vsMax[j])
  }

  ghost predicate AllAuxFit(s: Setting, r: Ranges, i: nat)
    requires WellFormed(s) && i <= |s.moduli| && |r.lsMin| == |r.vsMax| == |Others(s, i)|
  {
    forall j :: 0 <= j < |r.lsMin| ==>
      Others(s, i)[j] > 0 && AuxFits(s, r.kMin, r.uMax, Others(s, i)[j], r.lsMin[j], r.vsMax[j])
  }

  // ---------------------------------------------------------------- the equations

  /** expr - (u + kMin) * q vanishes modulo p. */
  ghost predicate NativeEquation(s: Setting, kMin: int, l: Limbs, u: int)
    requires WellFormed(s) && Fits(s.gate, l, s.n, s.base)
  {
    Cong(MainValue(s, kMin, l, u), 0, s.p)
  }

  ghost function MainValue(s: Setting, kMin: int, l: Limbs, u: int): int
    requires WellFormed(s) && Fits(s.gate, l, s.n, s.base)
  {
    Expr(BasePowers(s), l, s.gate, s.base) - (u + kMin) * s.q
  }

  /** expr_m - u * (q % m) - (kMin * q) % m */
  ghost function AuxValue(s: Setting, kMin: int, l: Limbs, u: int, m: nat): int
    requires WellFormed(s) && Fits(s.gate, l, s.n, s.base) && m > 0
  {
    Expr(Reduce(BasePowers(s), m), l, s.gate, s.base) - u * (s.q % m) - (kMin * s.q) % m
  }

  /** The auxiliary value is (v + lMin) * m modulo p. */
  ghost predicate AuxEquation(s: Setting, kMin: int, l: Limbs, u: int, m: nat, lMin: int, v: int)
    requires WellFormed(s) && Fits(s.gate, l, s.n, s.base)
  {
    m > 0 && Cong(AuxValue(s, kMin, l, u, m) - (v + lMin) * m, 0, s.p)
  }

  /** u and vs pass their range checks and every equation holds modulo p. */
  ghost predicate Satisfies(s: Setting, r: Ranges, l: Limbs, u: int, vs: seq<int>)
    requires WellFormed(s) && Fits(s.gate, l, s.n, s.base)
  {
    var ms := Others(s, |s.moduli|);
    && 0 <= u < r.uMax
    && |vs| == |r.vsMax| == |r.lsMin| == |ms|
    && NativeEquation(s, r.kMin, l, u)
    && forall j :: 0 <= j < |ms| ==>
         0 <= vs[j] < r.vsMax[j] && AuxEquation(s, r.kMin, l, u, ms[j], r.lsMin[j], vs[j])
  }

  ghost predicate Satisfiable(s: Setting, r: Ranges, l: Limbs)
    requires WellFormed(s) && Fits(s.gate, l, s.n, s.base)
  {
    exists u: int, vs: seq<int> :: Satisfies(s, r, l, u, vs)
  }

  // ---------------------------------------------------------------- arithmetic of one range

  /** A multiple e == k * m in [lo, hi] has its quotient in [-(|lo| / m), hi / m]. */
  lemma QuotientRange(lo: int, hi: int, e: int, m: nat, k: int)
    requires m > 0 && lo <= e <= hi && e == k * m
    ensures -(Abs(lo) / m) <= k <= hi / m
  {
    var a := Abs(lo) / m;
    DivMod(Abs(lo), m);
    DivMod(hi, m);
    DivNonNegative(Abs(lo), m);
    assert m * (-a - 1) == -(m * a) - m;
    assert m * (hi / m + 1) == m * (hi / m) + m;
    if k < -a {
      MulLe(m, k, -a - 1);
    }
    if k > hi / m {
      MulLe(m, hi / m + 1, k);
    }
  }

  /** A value e in [lo, hi] minus (v + c) * m, for v in [0, vMax], stays strictly within limit. */
  lemma Confined(lo: int, hi: int, e: int, v: int, vMax: nat, c: int, m: nat, limit: int)
    requires m > 0 && lo <= e <= hi && 0 <= v <= vMax
    requires limit > Max(-(lo - (vMax + c) * m), hi - c * m)
    ensures -limit < e - (v + c) * m < limit
  {
    MulLe(m, v, vMax);
    MulLe(m, 0, v);
    assert (v + c) * m == v * m + c * m;
    assert (vMax + c) * m == vMax * m + c * m;
  }

  lemma AuxValueBounds(s: Setting, kMin: int, uMax: nat, l: Limbs, u: int, m: nat)
    requires WellFormed(s) && Fits(s.gate, l, s.n, s.base) && m > 0 && 0 <= u <= uMax
    ensures AuxLow(s, kMin, uMax, m) <= AuxValue(s, kMin, l, u, m) <= AuxHigh(s, kMin, m)
  {
    var pw := Reduce(BasePowers(s), m);
    hide BasePowers, Reduce, ExprBounds, Expr, NextCheapest;
    ExprInBounds(pw, l, s.gate, s.base);
    MulLe(s.q % m, u, uMax);
    MulLe(s.q % m, 0, u);
  }

  /** The auxiliary value is congruent to the main one modulo its own modulus. */
  lemma AuxCong(s: Setting, kMin: int, l: Limbs, u: int, m: nat)
    requires WellFormed(s) && Fits(s.gate, l, s.n, s.base) && m > 0
    ensures Cong(AuxValue(s, kMin, l, u, m), MainValue(s, kMin, l, u), m)
  {
    var pw := BasePowers(s);
    var e, e' := Expr(Reduce(pw, m), l, s.gate, s.base), Expr(pw, l, s.gate, s.base);
    hide BasePowers, Reduce, Expr, Cong;
    ExprCong(Reduce(pw, m), pw, l, s.gate, s.base, m);
    CongMod(s.q, m);
    CongScale(u, s.q % m, s.q, m);
    CongMod(kMin * s.q, m);
    CongAdd(e, e', u * (s.q % m), u * s.q, m);
    CongAdd(e - u * (s.q % m), e' - u * s.q, (kMin * s.q) % m, kMin * s.q, m);
    assert (u + kMin) * s.q == u * s.q + kMin * s.q;
  }

  /** An auxiliary equation that holds modulo p makes its modulus divide the main value. */
  lemma AuxSound(s: Setting, r: Ranges, l: Limbs, u: int, m: nat, lMin: int, vMax: nat, v: int)
    requires WellFormed(s) && Fits(s.gate, l, s.n, s.base) && 0 <= u < r.uMax && m > 0
    requires AuxFits(s, r.kMin, r.uMax, m, lMin, vMax) && 0 <= v < vMax
    requires AuxEquation(s, r.kMin, l, u, m, lMin, v)
    ensures Divides(m, MainValue(s, r.kMin, l, u))
  {
    hide AuxValue, MainValue, AuxLow, AuxHigh, Cong;
    var e, x := AuxValue(s, r.kMin, l, u, m), MainValue(s, r.kMin, l, u);
    AuxValueBounds(s, r.kMin, r.uMax, l, u, m);
    Confined(AuxLow(s, r.kMin, r.uMax, m), AuxHigh(s, r.kMin, m), e, v, vMax, lMin, m, s.p);
    CongSmall(e - (v + lMin) * m, 0, s.p);
    CongBy(e, 0, m, v + lMin);
    AuxCong(s, r.kMin, l, u, m);
    CongSym(e, x, m);
    CongTrans(x, e, 0, m);
  }

  /** When the main value is zero, some v in range solves the auxiliary equation. */
  lemma AuxComplete(s: Setting, rcLen: nat, r: Ranges, l: Limbs, u: int, m: nat, lMin: int, vMax: nat) returns (v: int)
    requires WellFormed(s) && Fits(s.gate, l, s.n, s.base) && 0 <= u < r.uMax
    requires AuxRange(s, rcLen, r.kMin, r.uMax, m, lMin, vMax)
    requires MainValue(s, r.kMin, l, u) == 0
    ensures 0 <= v < vMax && AuxEquation(s, r.kMin, l, u, m, lMin, v)
  {
    hide AuxValue, MainValue, AuxLow, AuxHigh, Cong, NextCheapest, Abs;
    var e := AuxValue(s, r.kMin, l, u, m);
    AuxCong(s, r.kMin, l, u, m);
    var k := CongGet(e, 0, m);
    AuxValueBounds(s, r.kMin, r.uMax, l, u, m);
    QuotientRange(AuxLow(s, r.kMin, r.uMax, m), AuxHigh(s, r.kMin, m), e, m, k);
    NextCheapestCovers(rcLen, AuxHigh(s, r.kMin, m) / m - lMin + 1);
    v := k - lMin;
    assert (v + lMin) * m == m * k;
    CongRefl(0, s.p);
  }

  // ---------------------------------------------------------------- the thresholds are exact

  /** Ceiling and floor: -(|lo| / m) is the least k with k * m >= lo for lo <= 0, and hi / m the greatest with k * m <= hi. */
  lemma QuotientEnds(lo: int, hi: int, m: nat, k: int)
    requires m > 0
    ensures lo <= 0 ==> (k >= -(Abs(lo) / m) <==> k * m >= lo)
    ensures k <= hi / m <==> k * m <= hi
  {
    var a := Abs(lo) / m;
    DivMod(Abs(lo), m);
    DivMod(hi, m);
    assert m * (-a - 1) == -(m * a) - m && m * -a == -(m * a);
    assert m * (hi / m + 1) == m * (hi / m) + m;
    if k >= -a {
      MulLe(m, -a, k);
    } else {
      MulLe(m, k, -a - 1);
    }
    if k <= hi / m {
      MulLe(m, k, hi / m);
    } else {
      MulLe(m, hi / m + 1, k);
    }
  }

  /** The limbs that reach the two bounds of the main expression. */
  lemma MainExtremes(s: Setting, kMin: int) returns (low: Limbs, high: Limbs)
    requires WellFormed(s)
    ensures Fits(s.gate, low, s.n, s.base) && Fits(s.gate, high, s.n, s.base)
    ensures forall u: int :: MainValue(s, kMin, low, u) == Bounds(s).0 - (u + kMin) * s.q
    ensures forall u: int :: MainValue(s, kMin, high, u) == Bounds(s).1 - (u + kMin) * s.q
  {
    low, high := BoundsAttained(BasePowers(s), s.gate, s.base);
    hide BasePowers, Expr, ExprBounds, Fits;
  }

  lemma AuxExtremes(s: Setting, kMin: int, uMax: nat, m: nat) returns (low: Limbs, high: Limbs)
    requires WellFormed(s) && m > 0
    ensures Fits(s.gate, low, s.n, s.base) && AuxValue(s, kMin, low, uMax, m) == AuxLow(s, kMin, uMax, m)
    ensures Fits(s.gate, high, s.n, s.base) && AuxValue(s, kMin, high, 0, m) == AuxHigh(s, kMin, m)
  {
    low, high := BoundsAttained(Reduce(BasePowers(s), m), s.gate, s.base);
    hide BasePowers, Reduce, Expr, ExprBounds, Fits;
  }

  ghost predicate Within(x: int, limit: int) {
    -limit < x < limit
  }

  /** No limbs and no u up to uMax give the main value lcm or more, either way. */
  ghost predicate MainStaysWithin(s: Setting, kMin: int, uMax: nat, lcm: nat)
    requires WellFormed(s)
  {
    forall l: Limbs, u: int :: Fits(s.gate, l, s.n, s.base) && 0 <= u <= uMax ==> Within(MainValue(s, kMin, l, u), lcm)
  }

  /** The left side of an auxiliary equation. */
  ghost function AuxRest(s: Setting, kMin: int, l: Limbs, u: int, m: nat, lMin: int, v: int): int
    requires WellFormed(s) && Fits(s.gate, l, s.n, s.base) && m > 0
  {
    AuxValue(s, kMin, l, u, m) - (v + lMin) * m
  }

  /** No limbs, no u up to uMax and no v up to vMax give it p or more, either way. */
  ghost predicate AuxStaysWithin(s: Setting, kMin: int, uMax: nat, m: nat, lMin: int, vMax: nat)
    requires WellFormed(s) && m > 0
  {
    forall l: Limbs, u: int, v: int :: Fits(s.gate, l, s.n, s.base) && 0 <= u <= uMax && 0 <= v <= vMax ==>
      Within(AuxRest(s, kMin, l, u, m, lMin, v), s.p)
  }

  /** The main threshold is exact. */
  lemma LcmFitsExactly(s: Setting, kMin: int, uMax: nat, lcm: nat)
    requires WellFormed(s)
    ensures LcmFits(s, kMin, uMax, lcm) <==> MainStaysWithin(s, kMin, uMax, lcm)
  {
    var low, high := MainExtremes(s, kMin);
    hide BasePowers, Expr, Bounds, Fits;
    if LcmFits(s, kMin, uMax, lcm) {
      forall l: Limbs, u: int | Fits(s.gate, l, s.n, s.base) && 0 <= u <= uMax
        ensures Within(MainValue(s, kMin, l, u), lcm)
      {
        MainBounds(s, l);
        Confined(Bounds(s).0, Bounds(s).1, Expr(BasePowers(s), l, s.gate, s.base), u, uMax, kMin, s.q, lcm);
      }
    }
    if MainStaysWithin(s, kMin, uMax, lcm) {
      assert Within(MainValue(s, kMin, low, uMax), lcm);
      assert Within(MainValue(s, kMin, high, 0), lcm);
    }
  }

  /** The threshold of an auxiliary modulus is exact. */
  lemma AuxFitsExactly(s: Setting, kMin: int, uMax: nat, m: nat, lMin: int, vMax: nat)
    requires WellFormed(s) && m > 0
    ensures AuxFits(s, kMin, uMax, m, lMin, vMax) <==> AuxStaysWithin(s, kMin, uMax, m, lMin, vMax)
  {
    var low, high := AuxExtremes(s, kMin, uMax, m);
    hide AuxValue, AuxLow, AuxHigh, Fits;
    if AuxFits(s, kMin, uMax, m, lMin, vMax) {
      forall l: Limbs, u: int, v: int | Fits(s.gate, l, s.n, s.base) && 0 <= u <= uMax && 0 <= v <= vMax
        ensures Within(AuxRest(s, kMin, l, u, m, lMin, v), s.p)
      {
        AuxValueBounds(s, kMin, uMax, l, u, m);
        Confined(AuxLow(s, kMin, uMax, m), AuxHigh(s, kMin, m), AuxValue(s, kMin, l, u, m), v, vMax, lMin, m, s.p);
      }
    }
    if AuxStaysWithin(s, kMin, uMax, m, lMin, vMax) {
      assert Within(AuxRest(s, kMin, low, uMax, m, lMin, vMax), s.p);
      assert Within(AuxRest(s, kMin, high, 0, m, lMin, 0), s.p);
    }
  }

  ghost predicate AllAuxStayWithin(s: Setting, r: Ranges, i: nat)
    requires WellFormed(s) && i <= |s.moduli| && |r.lsMin| == |r.vsMax| == |Others(s, i)|
  {
    forall j :: 0 <= j < |r.lsMin| ==>
      Others(s, i)[j] > 0 && AuxStaysWithin(s, r.kMin, r.uMax, Others(s, i)[j], r.lsMin[j], r.vsMax[j])
  }

  lemma AllAuxFitExactly(s: Setting, r: Ranges, i: nat)
    requires WellFormed(s) && i <= |s.moduli| && |r.lsMin| == |r.vsMax| == |Others(s, i)|
    ensures AllAuxFit(s, r, i) <==> AllAuxStayWithin(s, r, i)
  {
    hide AuxFits, AuxStaysWithin, Others;
    forall j | 0 <= j < |r.lsMin| && Others(s, i)[j] > 0
      ensures AuxFits(s, r.kMin, r.uMax, Others(s, i)[j], r.lsMin[j], r.vsMax[j]) <==>
              AuxStaysWithin(s, r.kMin, r.uMax, Others(s, i)[j], r.lsMin[j], r.vsMax[j])
    {
      AuxFitsExactly(s, r.kMin, r.uMax, Others(s, i)[j], r.lsMin[j], r.vsMax[j]);
    }
  }

  ghost predicate CanBeNegative(s: Setting)
    requires s.q > 0
  {
    exists l: Limbs :: Fits(s.gate, l, s.n, s.base) && Expr(BasePowers(s), l, s.gate, s.base) < 0
  }

  lemma NegativeExactly(s: Setting)
    requires WellFormed(s)
    ensures Bounds(s).0 < 0 <==> CanBeNegative(s)
  {
    var low, _ := BoundsAttained(BasePowers(s), s.gate, s.base);
    hide BasePowers, Expr, ExprBounds, Fits;
    forall l: Limbs | Fits(s.gate, l, s.n, s.base)
      ensures Bounds(s).0 <= Expr(BasePowers(s), l, s.gate, s.base)
    {
      MainBounds(s, l);
    }
  }

  /** k * q lies between two values of the expression. */
  ghost predicate MainReaches(s: Setting, k: int)
    requires WellFormed(s)
  {
    exists l: Limbs, l': Limbs ::
      && Fits(s.gate, l, s.n, s.base) && Fits(s.gate, l', s.n, s.base)
      && Expr(BasePowers(s), l, s.gate, s.base) <= k * s.q <= Expr(BasePowers(s), l', s.gate, s.base)
  }

  /** The quotients that can occur are exactly the n integers from kMin on, and uMax is the power chosen for n. */
  lemma MainRangeMeaning(s: Setting, rcLen: nat, kMin: int, uMax: nat) returns (n: int)
    requires WellFormed(s) && MainRange(s, rcLen, kMin, uMax) && CanBeNegative(s)
    ensures uMax == NextCheapest(rcLen, n) && n <= uMax
    ensures forall k: int :: MainReaches(s, k) <==> kMin <= k < kMin + n
  {
    n := Bounds(s).1 / s.q - kMin + 1;
    var low, high := BoundsAttained(BasePowers(s), s.gate, s.base);
    NegativeExactly(s);
    hide BasePowers, Expr, ExprBounds, Fits, Abs, NextCheapest, CanBeNegative;
    NextCheapestCovers(rcLen, n);
    forall k: int
      ensures MainReaches(s, k) <==> kMin <= k < kMin + n
    {
      QuotientEnds(Bounds(s).0, Bounds(s).1, s.q, k);
      forall l: Limbs | Fits(s.gate, l, s.n, s.base)
        ensures Bounds(s).0 <= Expr(BasePowers(s), l, s.gate, s.base) <= Bounds(s).1
      {
        MainBounds(s, l);
      }
    }
  }

  /** k * m lies between two values of the auxiliary expression, for u up to uMax. */
  ghost predicate AuxReaches(s: Setting, kMin: int, uMax: nat, m: nat, k: int)
    requires WellFormed(s) && m > 0
  {
    exists l: Limbs, u: int, l': Limbs, u': int ::
      && Fits(s.gate, l, s.n, s.base) && Fits(s.gate, l', s.n, s.base) && 0 <= u <= uMax && 0 <= u' <= uMax
      && AuxValue(s, kMin, l, u, m) <= k * m <= AuxValue(s, kMin, l', u', m)
  }

  ghost predicate AuxCanVanish(s: Setting, kMin: int, uMax: nat, m: nat)
    requires WellFormed(s) && m > 0
  {
    exists l: Limbs, u: int :: Fits(s.gate, l, s.n, s.base) && 0 <= u <= uMax && AuxValue(s, kMin, l, u, m) <= 0
  }

  /** The quotients of an auxiliary expression are among the n integers from lMin on, and vMax is the power chosen for
      n. They are exactly these integers if and only if the expression can be zero or less. */
  lemma AuxRangeMeaning(s: Setting, rcLen: nat, kMin: int, uMax: nat, m: nat, lMin: int, vMax: nat) returns (n: int)
    requires WellFormed(s) && AuxRange(s, rcLen, kMin, uMax, m, lMin, vMax)
    ensures vMax == NextCheapest(rcLen, n) && n <= vMax
    ensures forall k: int :: AuxReaches(s, kMin, uMax, m, k) ==> lMin <= k < lMin + n
    ensures (forall k: int :: AuxReaches(s, kMin, uMax, m, k) <==> lMin <= k < lMin + n) <==> AuxCanVanish(s, kMin, uMax, m)
  {
    n := AuxHigh(s, kMin, m) / m - lMin + 1;
    var low, high := AuxExtremes(s, kMin, uMax, m);
    hide AuxValue, AuxLow, AuxHigh, Fits, NextCheapest;
    NextCheapestCovers(rcLen, n);
    forall l: Limbs, u: int | Fits(s.gate, l, s.n, s.base) && 0 <= u <= uMax
      ensures AuxLow(s, kMin, uMax, m) <= AuxValue(s, kMin, l, u, m) <= AuxHigh(s, kMin, m)
    {
      AuxValueBounds(s, kMin, uMax, l, u, m);
    }
    forall k: int
      ensures AuxReaches(s, kMin, uMax, m, k) <==> Between(AuxLow(s, kMin, uMax, m), AuxHigh(s, kMin, m), m, k)
    {}
    AuxQuotients(AuxLow(s, kMin, uMax, m), AuxHigh(s, kMin, m), m, lMin, n);
    assert AuxCanVanish(s, kMin, uMax, m) <==> AuxLow(s, kMin, uMax, m) <= 0;
    if AuxLow(s, kMin, uMax, m) > 0 {
      assert !AuxReaches(s, kMin, uMax, m, lMin);
    }
  }

  /** k * m is from lo to hi. */
  ghost predicate Between(lo: int, hi: int, m: nat, k: int) {
    lo <= k * m <= hi
  }

  lemma AuxQuotients(lo: int, hi: int, m: nat, lMin: int, n: int)
    requires m > 0 && lo <= hi && lMin == -(Abs(lo) / m) && n == hi / m - lMin + 1
    ensures forall k: int :: Between(lo, hi, m, k) ==> lMin <= k < lMin + n
    ensures lo <= 0 ==> forall k: int :: Between(lo, hi, m, k) <==> lMin <= k < lMin + n
    ensures lo > 0 ==> !Between(lo, hi, m, lMin) && lMin < lMin + n
  {
    hide Abs;
    forall k: int
      ensures Between(lo, hi, m, k) ==> lMin <= k < lMin + n
      ensures lo <= 0 ==> (Between(lo, hi, m, k) <==> lMin <= k < lMin + n)
    {
      QuotientEnds(lo, hi, m, k);
      if Between(lo, hi, m, k) {
        QuotientRange(lo, hi, k * m, m, k);
      }
    }
    DivNonNegative(Abs(lo), m);
    MulLe(m, lMin, 0);
    if lo > 0 {
      DivNonNegative(hi, m);
    }
  }

  lemma {:induction false} OthersExactly(s: Setting, i: nat, m: nat)
    requires i <= |s.moduli|
    ensures m in Others(s, i) <==> m != s.p && m in s.moduli[..i]
  {
    if i > 0 {
      OthersExactly(s, i - 1, m);
      assert s.moduli[..i] == s.moduli[..i - 1] + [s.moduli[i - 1]];
    }
  }

  // ---------------------------------------------------------------- the theorem

  /** expr vanishes modulo q exactly when the intended identity does. */
  lemma ExprMeansModQ(s: Setting, l: Limbs)
    requires WellFormed(s) && Fits(s.gate, l, s.n, s.base)
    ensures Cong(Expr(BasePowers(s), l, s.gate, s.base), 0, s.q) <==> Cong(Meaning(l, s.gate, s.n, s.base), 0, s.q)
  {
    var pw, tp := BasePowers(s), TruePowers(s.base, s.n);
    var e, e' := Expr(pw, l, s.gate, s.base), Meaning(l, s.gate, s.n, s.base);
    hide BasePowers, TruePowers, Expr, Meaning, Cong;
    ExprCong(pw, tp, l, s.gate, s.base, s.q);
    ExprIsMeaning(l, s.gate, s.n, s.base);
    CongSym(e, e', s.q);
    if Cong(e, 0, s.q) {
      CongTrans(e', e, 0, s.q);
    }
    if Cong(e', 0, s.q) {
      CongTrans(e, e', 0, s.q);
    }
  }

  lemma MainBounds(s: Setting, l: Limbs)
    requires WellFormed(s) && Fits(s.gate, l, s.n, s.base)
    ensures Bounds(s).0 <= Expr(BasePowers(s), l, s.gate, s.base) <= Bounds(s).1
  {
    hide BasePowers, Expr, ExprBounds;
    ExprInBounds(BasePowers(s), l, s.gate, s.base);
  }

  lemma OthersAt(s: Setting, i: nat, m: nat) returns (j: nat)
    requires i <= |s.moduli| && m in Others(s, i)
    ensures j < |Others(s, i)| && Others(s, i)[j] == m
  {
    j :| j < |Others(s, i)| && Others(s, i)[j] == m;
  }

  /** Every modulus divides the main value. */
  lemma ModuliDivide(s: Setting, rcLen: nat, r: Ranges, l: Limbs, u: int, vs: seq<int>, k: nat)
    requires WellFormed(s) && Fits(s.gate, l, s.n, s.base) && k < |s.moduli|
    requires AuxRanges(s, rcLen, r, |s.moduli|) && AllAuxFit(s, r, |s.moduli|)
    requires Satisfies(s, r, l, u, vs)
    ensures Divides(s.moduli[k], MainValue(s, r.kMin, l, u))
  {
    hide AuxRange, AuxFits, AuxEquation, MainValue, Others;
    if s.moduli[k] != s.p {
      assert s.moduli[..|s.moduli|][k] == s.moduli[k];
      OthersExactly(s, |s.moduli|, s.moduli[k]);
      var j := OthersAt(s, |s.moduli|, s.moduli[k]);
      AuxSound(s, r, l, u, s.moduli[k], r.lsMin[j], r.vsMax[j], vs[j]);
    }
  }

  lemma Sound(s: Setting, rcLen: nat, r: Ranges, l: Limbs, u: int, vs: seq<int>)
    requires WellFormed(s) && Fits(s.gate, l, s.n, s.base)
    requires AuxRanges(s, rcLen, r, |s.moduli|) && AllAuxFit(s, r, |s.moduli|)
    requires LcmFits(s, r.kMin, r.uMax, LcmOfPrefix(s.moduli, |s.moduli|))
    requires Satisfies(s, r, l, u, vs)
    ensures Cong(Expr(BasePowers(s), l, s.gate, s.base), 0, s.q)
  {
    hide AuxRanges, AllAuxFit, LcmOfPrefix, Expr, BasePowers, Bounds, Cong, Others;
    var e, x := Expr(BasePowers(s), l, s.gate, s.base), MainValue(s, r.kMin, l, u);
    forall k | 0 <= k < |s.moduli|
      ensures Divides(s.moduli[k], x)
    {
      ModuliDivide(s, rcLen, r, l, u, vs, k);
    }
    LcmIsLeast(s.moduli, |s.moduli|, x);
    MainBounds(s, l);
    Confined(Bounds(s).0, Bounds(s).1, e, u, r.uMax, r.kMin, s.q, LcmOfPrefix(s.moduli, |s.moduli|));
    CongSmall(x, 0, LcmOfPrefix(s.moduli, |s.moduli|));
    CongBy(e, 0, s.q, u + r.kMin);
  }

  lemma {:induction false} AuxWitnesses(s: Setting, rcLen: nat, r: Ranges, l: Limbs, u: int, n: nat) returns (vs: seq<int>)
    requires WellFormed(s) && Fits(s.gate, l, s.n, s.base) && 0 <= u < r.uMax
    requires AuxRanges(s, rcLen, r, |s.moduli|) && n <= |r.lsMin|
    requires MainValue(s, r.kMin, l, u) == 0
    ensures |vs| == n
    ensures forall j :: 0 <= j < n ==>
              0 <= vs[j] < r.vsMax[j] && AuxEquation(s, r.kMin, l, u, Others(s, |s.moduli|)[j], r.lsMin[j], vs[j])
  {
    hide AuxRange, AuxEquation, MainValue, Others;
    vs := [];
    if n > 0 {
      var front := AuxWitnesses(s, rcLen, r, l, u, n - 1);
      var v := AuxComplete(s, rcLen, r, l, u, Others(s, |s.moduli|)[n - 1], r.lsMin[n - 1], r.vsMax[n - 1]);
      vs := front + [v];
    }
  }

  lemma Complete(s: Setting, rcLen: nat, r: Ranges, l: Limbs)
    requires WellFormed(s) && Fits(s.gate, l, s.n, s.base)
    requires MainRange(s, rcLen, r.kMin, r.uMax) && AuxRanges(s, rcLen, r, |s.moduli|)
    requires Cong(Expr(BasePowers(s), l, s.gate, s.base), 0, s.q)
    ensures Satisfiable(s, r, l)
  {
    hide AuxRange, AuxEquation, BasePowers, Expr, Bounds, NextCheapest, Abs, Cong, Others;
    var e := Expr(BasePowers(s), l, s.gate, s.base);
    var k := CongGet(e, 0, s.q);
    MainBounds(s, l);
    QuotientRange(Bounds(s).0, Bounds(s).1, e, s.q, k);
    NextCheapestCovers(rcLen, Bounds(s).1 / s.q - r.kMin + 1);
    var u := k - r.kMin;
    assert (u + r.kMin) * s.q == s.q * k;
    CongRefl(0, s.p);
    var vs := AuxWitnesses(s, rcLen, r, l, u, |r.lsMin|);
    assert Satisfies(s, r, l, u, vs);
  }

  /** For valid parameters and limbs in range, the checked equations have a solution exactly when
      the intended identity holds modulo q. */
  lemma GateTheorem(s: Setting, rcLen: nat, r: Ranges, l: Limbs)
    requires WellFormed(s) && Fits(s.gate, l, s.n, s.base)
    requires MainRange(s, rcLen, r.kMin, r.uMax) && AuxRanges(s, rcLen, r, |s.moduli|)
    requires LcmFits(s, r.kMin, r.uMax, LcmOfPrefix(s.moduli, |s.moduli|)) && AllAuxFit(s, r, |s.moduli|)
    ensures Satisfiable(s, r, l) <==> Cong(Meaning(l, s.gate, s.n, s.base), 0, s.q)
  {
    hide MainRange, AuxRanges, AllAuxFit, LcmFits, LcmOfPrefix, Expr, BasePowers, Meaning, Cong, Satisfies, Others;
    ExprMeansModQ(s, l);
    if Satisfiable(s, r, l) {
      var u: int, vs: seq<int> :| Satisfies(s, r, l, u, vs);
      Sound(s, rcLen, r, l, u, vs);
    }
    if Cong(Expr(BasePowers(s), l, s.gate, s.base), 0, s.q) {
      Complete(s, rcLen, r, l);
    }
  }

  // ---------------------------------------------------------------- the computation

  lemma ExtendRanges(s: Setting, rcLen: nat, r: Ranges, i: nat, l: int, v: nat)
    requires WellFormed(s) && i < |s.moduli| && s.moduli[i] != s.p
    requires AuxRanges(s, rcLen, r, i) && AuxRange(s, rcLen, r.kMin, r.uMax, s.moduli[i], l, v)
    ensures var r' := r.(lsMin := r.lsMin + [l], vsMax := r.vsMax + [v]);
            && AuxRanges(s, rcLen, r', i + 1)
            && (AllAuxFit(s, r', i + 1) <==>
                  AllAuxFit(s, r, i) && AuxFits(s, r.kMin, r.uMax, s.moduli[i], l, v))
  {
    hide AuxRange, AuxFits;
    var r' := r.(lsMin := r.lsMin + [l], vsMax := r.vsMax + [v]);
    var ms, ms' := Others(s, i), Others(s, i + 1);
    assert ms' == ms + [s.moduli[i]];
    if AllAuxFit(s, r', i + 1) {
      forall j | 0 <= j < |r.lsMin|
        ensures ms[j] > 0 && AuxFits(s, r.kMin, r.uMax, ms[j], r.lsMin[j], r.vsMax[j])
      {
        assert ms'[j] == ms[j] && r'.lsMin[j] == r.lsMin[j] && r'.vsMax[j] == r.vsMax[j];
      }
      assert r'.lsMin[|r.lsMin|] == l && r'.vsMax[|r.lsMin|] == v && ms'[|r.lsMin|] == s.moduli[i];
    }
  }

  method MainRanges(table: CostTable, rcLen: nat, s: Setting) returns (kMin: int, uMax: nat)
    requires WellFormed(s) && table.Valid()
    modifies table
    ensures table.Valid() && MainRange(s, rcLen, kMin, uMax)
  {
    hide Bounds, NextCheapest;
    kMin := -(Abs(Bounds(s).0) / s.q);
    uMax := NextCheapestPowerOf2(table, rcLen, Bounds(s).1 / s.q - kMin + 1);
  }

  method AuxRangesFor(table: CostTable, rcLen: nat, s: Setting, kMin: int, uMax: nat, m: nat)
    returns (lMin: int, vMax: nat, fits: bool)
    requires WellFormed(s) && table.Valid() && m > 0
    modifies table
    ensures table.Valid() && AuxRange(s, rcLen, kMin, uMax, m, lMin, vMax)
    ensures fits == AuxFits(s, kMin, uMax, m, lMin, vMax)
  {
    hide AuxLow, AuxHigh, AuxFits, NextCheapest;
    lMin := -(Abs(AuxLow(s, kMin, uMax, m)) / m);
    vMax := NextCheapestPowerOf2(table, rcLen, AuxHigh(s, kMin, m) / m - lMin + 1);
    fits := AuxFits(s, kMin, uMax, m, lMin, vMax);
  }

  class Params {
    var setting: Setting
    var validity: Validity
    var kMin: int
    var uMax: nat
    var lsMin: seq<int>
    var vsMax: seq<nat>

    function GetRanges(): Ranges
      reads this
    {
      Ranges(kMin, uMax, lsMin, vsMax)
    }

    constructor (s: Setting)
      ensures setting == s
    {
      setting, validity := s, NotEnoughModuli;
      kMin, uMax, lsMin, vsMax := 0, 0, [], [];
    }

    /** Computes the ranges; fails (an assertion in the script) unless the expression can be negative.
        A valid outcome makes the equations equivalent to the intended identity, for all limbs. */
    method Init(table: CostTable, rcLen: nat) returns (ok: bool)
      requires WellFormed(setting) && table.Valid()
      modifies this, table
      ensures table.Valid() && setting == old(setting)
      ensures ok <==> CanBeNegative(setting)
      ensures ok ==> MainRange(setting, rcLen, kMin, uMax) && AuxRanges(setting, rcLen, GetRanges(), |setting.moduli|)
      ensures ok ==> (validity == InvalidAuxModulus <==> !AllAuxStayWithin(setting, GetRanges(), |setting.moduli|))
      ensures ok ==> (validity == ValidParameters <==>
                        && MainStaysWithin(setting, kMin, uMax, LcmOfPrefix(setting.moduli, |setting.moduli|))
                        && AllAuxStayWithin(setting, GetRanges(), |setting.moduli|))
      ensures ok && validity == ValidParameters ==>
                forall l :: Fits(setting.gate, l, setting.n, setting.base) ==>
                  (Satisfiable(setting, GetRanges(), l) <==>
                   Cong(Meaning(l, setting.gate, setting.n, setting.base), 0, setting.q))
    {
      hide AuxRange, AuxFits, MainRange, Bounds, Cong, Meaning, Satisfiable, LcmOfPrefix, LcmFits, AllAuxFit, Others,
        MainStaysWithin, AllAuxStayWithin, CanBeNegative;
      var s := setting;
      validity := ValidParameters;
      NegativeExactly(s);
      if Bounds(s).0 >= 0 {
        return false;
      }
      kMin, uMax := MainRanges(table, rcLen, s);
      var lcm := Lcm(s.moduli);
      var enough := LcmFits(s, kMin, uMax, lcm);
      if !enough {
        validity := NotEnoughModuli;
      }
      lsMin, vsMax := [], [];
      NoRanges(s, rcLen, GetRanges());
      ghost var k, u := kMin, uMax;
      for i := 0 to |s.moduli|
        invariant setting == s && table.Valid() && kMin == k && uMax == u
        invariant AuxRanges(s, rcLen, GetRanges(), i)
        invariant validity == InvalidAuxModulus <==> !AllAuxFit(s, GetRanges(), i)
        invariant validity != InvalidAuxModulus ==> (validity == ValidParameters <==> enough)
      {
        if s.moduli[i] == s.p {
          SkipNative(s, rcLen, GetRanges(), i);
          continue;
        }
        var lMin, vMax, fits := AuxRangesFor(table, rcLen, s, kMin, uMax, s.moduli[i]);
        ExtendRanges(s, rcLen, GetRanges(), i, lMin, vMax);
        lsMin, vsMax := lsMin + [lMin], vsMax + [vMax];
        if !fits {
          validity := InvalidAuxModulus;
        }
      }
      ok := true;
      LcmFitsExactly(s, kMin, uMax, lcm);
      AllAuxFitExactly(s, GetRanges(), |s.moduli|);
      if validity == ValidParameters {
        forall l | Fits(s.gate, l, s.n, s.base)
          ensures Satisfiable(s, GetRanges(), l) <==> Cong(Meaning(l, s.gate, s.n, s.base), 0, s.q)
        {
          GateTheorem(s, rcLen, GetRanges(), l);
        }
      }
    }
  }

  lemma NoRanges(s: Setting, rcLen: nat, r: Ranges)
    requires WellFormed(s) && r.lsMin == [] && r.vsMax == []
    ensures AuxRanges(s, rcLen, r, 0) && AllAuxFit(s, r, 0)
  {}

  lemma SkipNative(s: Setting, rcLen: nat, r: Ranges, i: nat)
    requires WellFormed(s) && i < |s.moduli| && s.moduli[i] == s.p && AuxRanges(s, rcLen, r, i)
    ensures AuxRanges(s, rcLen, r, i + 1) && (AllAuxFit(s, r, i + 1) <==> AllAuxFit(s, r, i))
  {
    hide AuxRange, AuxFits;
    assert Others(s, i + 1) == Others(s, i);
  }
}
