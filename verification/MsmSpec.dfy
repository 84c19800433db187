/** What a multi-scalar multiplication means, and the algebra that relates windows, buckets and
    running sums to it. */
module MsmSpec {
  import opened Algebra
  import opened Numbers
  import Booth

  type Bytes = seq<Byte>

  /** The first n terms of the sum of coeff_i * base_i. */
  ghost function Naive<G>(g: Group<G>, coeffs: seq<Bytes>, bases: seq<G>, n: nat): G
    requires n <= |coeffs| && n <= |bases|
  {
    if n == 0 then g.zero
    else g.add(Naive(g, coeffs, bases, n - 1), Mul(g, FromLe(coeffs[n - 1]), bases[n - 1]))
  }

  /** The same sum with every scalar replaced by its Booth digit in window w. */
  ghost function WindowSum<G>(g: Group<G>, coeffs: seq<Bytes>, bases: seq<G>, c: nat, w: nat, n: nat): G
    requires n <= |coeffs| && n <= |bases|
  {
    if n == 0 then g.zero
    else g.add(WindowSum(g, coeffs, bases, c, w, n - 1),
               Mul(g, Booth.Digit(FromLe(coeffs[n - 1]), c, w), bases[n - 1]))
  }

  /** sum over w < windows of 2^(c*w) * WindowSum(w) */
  ghost function Shifted<G>(g: Group<G>, coeffs: seq<Bytes>, bases: seq<G>, c: nat, windows: nat, n: nat): G
    requires n <= |coeffs| && n <= |bases|
  {
    if windows == 0 then g.zero
    else g.add(Shifted(g, coeffs, bases, c, windows - 1, n),
               Mul(g, Pow2(c * (windows - 1)), WindowSum(g, coeffs, bases, c, windows - 1, n)))
  }

  lemma ShiftedUnfold<G>(g: Group<G>, coeffs: seq<Bytes>, bases: seq<G>, c: nat, w: nat, n: nat)
    requires n <= |coeffs| && n <= |bases|
    ensures Shifted(g, coeffs, bases, c, w + 1, n) ==
            g.add(Shifted(g, coeffs, bases, c, w, n), Mul(g, Pow2(c * w), WindowSum(g, coeffs, bases, c, w, n)))
  {
    hide WindowSum, Mul, Pow2;
  }

  lemma WindowSumUnfold<G>(g: Group<G>, coeffs: seq<Bytes>, bases: seq<G>, c: nat, w: nat, n: nat)
    requires 0 < n <= |coeffs| && n <= |bases|
    ensures WindowSum(g, coeffs, bases, c, w, n) ==
            g.add(WindowSum(g, coeffs, bases, c, w, n - 1), Mul(g, Booth.Digit(FromLe(coeffs[n - 1]), c, w), bases[n - 1]))
  {
    hide Mul, Booth.Digit, FromLe;
  }

  /** (s + q*base) + p*(before + d*base) == (s + p*before) + (q + d*p)*base */
  lemma PointStep<G(!new)>(g: Group<G>, s: G, q: int, p: nat, before: G, d: int, base: G)
    requires IsGroup(g)
    ensures g.add(g.add(s, Mul(g, q, base)), Mul(g, p, g.add(before, Mul(g, d, base)))) ==
            g.add(g.add(s, Mul(g, p, before)), Mul(g, q + d * p, base))
  {
    hide Mul, IsGroup;
    MulDistributes(g, p, before, Mul(g, d, base));
    MulMul(g, p, d, base);
    assert p * d == d * p;
    GSwap(g, s, Mul(g, q, base), Mul(g, p, before), Mul(g, d * p, base));
    MulAdd(g, q, d * p, base);
  }

  /** One more point adds its recoded scalar times that point. */
  lemma {:induction false} ShiftedPoint<G(!new)>(g: Group<G>, coeffs: seq<Bytes>, bases: seq<G>, c: nat, windows: nat, n: nat)
    requires IsGroup(g) && 0 < n <= |coeffs| && n <= |bases|
    ensures Shifted(g, coeffs, bases, c, windows, n) ==
            g.add(Shifted(g, coeffs, bases, c, windows, n - 1),
                  Mul(g, Booth.Recoded(FromLe(coeffs[n - 1]), c, windows), bases[n - 1]))
    decreases windows, 0
  {
    if windows == 0 {
      GZero(g, g.zero);
    } else {
      ShiftedPointStep(g, coeffs, bases, c, windows - 1, n);
    }
  }

  lemma ShiftedPointStep<G(!new)>(g: Group<G>, coeffs: seq<Bytes>, bases: seq<G>, c: nat, w: nat, n: nat)
    requires IsGroup(g) && 0 < n <= |coeffs| && n <= |bases|
    ensures Shifted(g, coeffs, bases, c, w + 1, n) ==
            g.add(Shifted(g, coeffs, bases, c, w + 1, n - 1),
                  Mul(g, Booth.Recoded(FromLe(coeffs[n - 1]), c, w + 1), bases[n - 1]))
    decreases w, 1
  {
    hide Shifted, WindowSum, Booth.Recoded, Booth.Digit, FromLe, Pow2, Mul, IsGroup;
    ShiftedPoint(g, coeffs, bases, c, w, n);
    var s, base := FromLe(coeffs[n - 1]), bases[n - 1];
    ShiftedUnfold(g, coeffs, bases, c, w, n);
    ShiftedUnfold(g, coeffs, bases, c, w, n - 1);
    WindowSumUnfold(g, coeffs, bases, c, w, n);
    Booth.RecodedStep(s, c, w);
    PointStep(g, Shifted(g, coeffs, bases, c, w, n - 1), Booth.Recoded(s, c, w), Pow2(c * w),
              WindowSum(g, coeffs, bases, c, w, n - 1), Booth.Digit(s, c, w), base);
  }

  /** Enough windows reassemble the naive sum. */
  lemma {:induction false} WindowsReassemble<G(!new)>(
      g: Group<G>, coeffs: seq<Bytes>, bases: seq<G>, c: nat, windows: nat, bits: nat, n: nat)
    requires IsGroup(g) && n <= |coeffs| && n <= |bases|
    requires c >= 1 && bits < c * windows
    requires forall i :: 0 <= i < n ==> FromLe(coeffs[i]) < Pow2(bits)
    ensures Shifted(g, coeffs, bases, c, windows, n) == Naive(g, coeffs, bases, n)
  {
    if n == 0 {
      ShiftedEmpty(g, coeffs, bases, c, windows);
    } else {
      WindowsReassemble(g, coeffs, bases, c, windows, bits, n - 1);
      ShiftedPoint(g, coeffs, bases, c, windows, n);
      Booth.RecodingTheorem(FromLe(coeffs[n - 1]), c, windows, bits);
    }
  }

  lemma {:induction false} ShiftedEmpty<G(!new)>(g: Group<G>, coeffs: seq<Bytes>, bases: seq<G>, c: nat, windows: nat)
    requires IsGroup(g)
    ensures Shifted(g, coeffs, bases, c, windows, 0) == g.zero
  {
    if windows > 0 {
      ShiftedEmpty(g, coeffs, bases, c, windows - 1);
      MulOfZero(g, Pow2(c * (windows - 1)));
      GZero(g, g.zero);
    }
  }

  /** Horner evaluation from the top window down to window w. */
  ghost function Horner<G>(g: Group<G>, start: G, coeffs: seq<Bytes>, bases: seq<G>, c: nat, windows: nat, w: nat, n: nat): G
    requires n <= |coeffs| && n <= |bases| && w <= windows
    decreases windows - w
  {
    if w == windows then start
    else g.add(Mul(g, Pow2(c), Horner(g, start, coeffs, bases, c, windows, w + 1, n)),
               WindowSum(g, coeffs, bases, c, w, n))
  }

  lemma HornerStep<G(!new)>(g: Group<G>, s: G, p: nat, q: nat, h: G, ws: G)
    requires IsGroup(g)
    ensures g.add(s, Mul(g, p, g.add(Mul(g, q, h), ws))) == g.add(g.add(s, Mul(g, p, ws)), Mul(g, p * q, h))
  {
    MulDistributes(g, p, Mul(g, q, h), ws);
    MulMul(g, p, q, h);
    GComm(g, Mul(g, p * q, h), Mul(g, p, ws));
    GAssoc(g, s, Mul(g, p, ws), Mul(g, p * q, h));
  }

  /** sum over w <= v < windows of 2^(c*(v-w)) * WindowSum(v), against the shifted sum from zero. */
  lemma {:induction false} HornerIsShifted<G(!new)>(
      g: Group<G>, start: G, coeffs: seq<Bytes>, bases: seq<G>, c: nat, windows: nat, w: nat, n: nat)
    requires IsGroup(g) && n <= |coeffs| && n <= |bases| && w <= windows
    ensures g.add(Shifted(g, coeffs, bases, c, w, n), Mul(g, Pow2(c * w), Horner(g, start, coeffs, bases, c, windows, w, n))) ==
            g.add(Shifted(g, coeffs, bases, c, windows, n), Mul(g, Pow2(c * windows), start))
    decreases windows - w, 1
  {
    if w < windows {
      HornerIsShiftedStep(g, start, coeffs, bases, c, windows, w, n);
    }
  }

  lemma HornerIsShiftedStep<G(!new)>(
      g: Group<G>, start: G, coeffs: seq<Bytes>, bases: seq<G>, c: nat, windows: nat, w: nat, n: nat)
    requires IsGroup(g) && n <= |coeffs| && n <= |bases| && w < windows
    ensures g.add(Shifted(g, coeffs, bases, c, w, n), Mul(g, Pow2(c * w), Horner(g, start, coeffs, bases, c, windows, w, n))) ==
            g.add(Shifted(g, coeffs, bases, c, windows, n), Mul(g, Pow2(c * windows), start))
    decreases windows - w, 0
  {
    hide Shifted, WindowSum, Horner, Pow2, Mul, IsGroup;
    HornerIsShifted(g, start, coeffs, bases, c, windows, w + 1, n);
    HornerUnfold(g, start, coeffs, bases, c, windows, w, n);
    ShiftedUnfold(g, coeffs, bases, c, w, n);
    Pow2Next(c, w);
    var h := Horner(g, start, coeffs, bases, c, windows, w + 1, n);
    HornerStep(g, Shifted(g, coeffs, bases, c, w, n), Pow2(c * w), Pow2(c), h, WindowSum(g, coeffs, bases, c, w, n));
  }

  lemma HornerUnfold<G>(g: Group<G>, start: G, coeffs: seq<Bytes>, bases: seq<G>, c: nat, windows: nat, w: nat, n: nat)
    requires n <= |coeffs| && n <= |bases| && w < windows
    ensures Horner(g, start, coeffs, bases, c, windows, w, n) ==
            g.add(Mul(g, Pow2(c), Horner(g, start, coeffs, bases, c, windows, w + 1, n)), WindowSum(g, coeffs, bases, c, w, n))
  {
    hide WindowSum, Mul, Pow2;
  }

  // ---------------------------------------------------------------- buckets

  /** Signed sum of the points whose digit sends them to bucket k. */
  ghost function Routed<G>(g: Group<G>, digits: seq<int>, bases: seq<G>, k: nat): G
    requires |digits| <= |bases|
  {
    if |digits| == 0 then g.zero
    else
      var n := |digits| - 1;
      var rest := Routed(g, digits[..n], bases, k);
      if digits[n] == k + 1 then g.add(rest, bases[n])
      else if digits[n] == -(k + 1) then g.add(rest, g.neg(bases[n]))
      else rest
  }

  ghost function DigitSum<G>(g: Group<G>, digits: seq<int>, bases: seq<G>): G
    requires |digits| <= |bases|
  {
    if |digits| == 0 then g.zero
    else
      var n := |digits| - 1;
      g.add(DigitSum(g, digits[..n], bases), Mul(g, digits[n], bases[n]))
  }

  /** vals[k] + vals[k+1] + ... in the order the loop adds them. */
  ghost function Running<G>(g: Group<G>, vals: seq<G>, k: nat): G
    requires k <= |vals|
    decreases |vals| - k
  {
    if k == |vals| then g.zero else g.add(Running(g, vals, k + 1), vals[k])
  }

  /** Sum of the running sums: summation by parts. */
  ghost function Parts<G>(g: Group<G>, vals: seq<G>, k: nat): G
    requires k <= |vals|
    decreases |vals| - k
  {
    if k == |vals| then g.zero else g.add(Parts(g, vals, k + 1), Running(g, vals, k))
  }

  lemma {:induction false} RunningUpdate<G(!new)>(g: Group<G>, vals: seq<G>, j: nat, k: nat, q: G)
    requires IsGroup(g) && j <= |vals| && k < |vals|
    ensures Running(g, vals[k := g.add(vals[k], q)], j) ==
            if j <= k then g.add(Running(g, vals, j), q) else Running(g, vals, j)
    decreases |vals| - j
  {
    if j < |vals| {
      RunningUpdate(g, vals, j + 1, k, q);
      var r := Running(g, vals, j + 1);
      if j == k {
        GAssoc(g, r, vals[k], q);
      } else if j < k {
        GAssoc(g, r, q, vals[j]);
        GComm(g, q, vals[j]);
        GAssoc(g, r, vals[j], q);
      }
    }
  }

  /** Bucket k is counted k - j + 1 times by the running sums from j up. */
  lemma {:induction false} PartsUpdate<G(!new)>(g: Group<G>, vals: seq<G>, j: nat, k: nat, q: G)
    requires IsGroup(g) && j <= |vals| && k < |vals|
    ensures Parts(g, vals[k := g.add(vals[k], q)], j) ==
            g.add(Parts(g, vals, j), Mul(g, if j <= k then k - j + 1 else 0, q))
    decreases |vals| - j
  {
    var vals' := vals[k := g.add(vals[k], q)];
    MulOne(g, q);
    if j == |vals| {
      GZero(g, g.zero);
    } else {
      PartsUpdate(g, vals, j + 1, k, q);
      RunningUpdate(g, vals, j, k, q);
      var p, r := Parts(g, vals, j + 1), Running(g, vals, j);
      if j <= k {
        GSwap(g, p, Mul(g, k - j, q), r, q);
        MulSucc(g, k - j, q);
      } else {
        GZero(g, p);
        GZero(g, Parts(g, vals, j));
      }
    }
  }

  lemma {:induction false} PartsOfZeros<G(!new)>(g: Group<G>, vals: seq<G>, j: nat)
    requires IsGroup(g) && j <= |vals|
    requires forall k :: 0 <= k < |vals| ==> vals[k] == g.zero
    ensures Running(g, vals, j) == g.zero && Parts(g, vals, j) == g.zero
    decreases |vals| - j
  {
    if j < |vals| {
      PartsOfZeros(g, vals, j + 1);
      GZero(g, g.zero);
    }
  }

  ghost predicate DigitsFit(digits: seq<int>, size: nat) {
    forall i :: 0 <= i < |digits| ==> 0 - size <= digits[i] <= size
  }

  /** Summation by parts over the buckets gives every point its digit. */
  lemma {:induction false} PartsOfRouted<G(!new)>(g: Group<G>, vals: seq<G>, digits: seq<int>, bases: seq<G>)
    requires IsGroup(g) && |digits| <= |bases| && DigitsFit(digits, |vals|)
    requires forall k :: 0 <= k < |vals| ==> vals[k] == Routed(g, digits, bases, k)
    ensures Parts(g, vals, 0) == DigitSum(g, digits, bases)
    decreases |digits|
  {
    if |digits| == 0 {
      PartsOfZeros(g, vals, 0);
    } else {
      var n := |digits| - 1;
      var prev := seq(|vals|, k requires 0 <= k < |vals| => Routed(g, digits[..n], bases, k));
      PartsOfRouted(g, prev, digits[..n], bases);
      var d, base := digits[n], bases[n];
      if d == 0 {
        assert vals == prev;
        MulOne(g, base);
        GZero(g, Parts(g, prev, 0));
      } else {
        var k := (if d > 0 then d else -d) - 1;
        var q := if d > 0 then base else g.neg(base);
        assert vals == prev[k := g.add(prev[k], q)];
        PartsUpdate(g, prev, 0, k, q);
        MulNeg(g, d, base);
        MulNeg(g, -d, base);
      }
    }
  }

  /** The digits of all scalars in one window. */
  ghost function Digits(coeffs: seq<Bytes>, c: nat, w: nat): (r: seq<int>)
    ensures |r| == |coeffs| && forall i :: 0 <= i < |r| ==> r[i] == Booth.Digit(FromLe(coeffs[i]), c, w)
  {
    seq(|coeffs|, i requires 0 <= i < |coeffs| => Booth.Digit(FromLe(coeffs[i]), c, w))
  }

  lemma {:induction false} DigitSumIsWindowSum<G>(g: Group<G>, coeffs: seq<Bytes>, bases: seq<G>, c: nat, w: nat, n: nat)
    requires n <= |coeffs| && n <= |bases|
    ensures DigitSum(g, Digits(coeffs, c, w)[..n], bases) == WindowSum(g, coeffs, bases, c, w, n)
  {
    if n > 0 {
      var ds := Digits(coeffs, c, w);
      assert ds[..n][..n - 1] == ds[..n - 1];
      DigitSumIsWindowSum(g, coeffs, bases, c, w, n - 1);
    }
  }

  lemma DigitsInRange(coeffs: seq<Bytes>, c: nat, w: nat)
    requires c >= 1
    ensures DigitsFit(Digits(coeffs, c, w), Pow2(c - 1))
  {
    forall i | 0 <= i < |coeffs|
      ensures 0 - Pow2(c - 1) <= Digits(coeffs, c, w)[i] <= Pow2(c - 1)
    {
      Booth.DigitRange(FromLe(coeffs[i]), c, w);
    }
  }

  // ---------------------------------------------------------------- naive sums

  /** Scalars that are all zero contribute nothing. */
  lemma {:induction false} NaiveOfZeros<G(!new)>(g: Group<G>, coeffs: seq<Bytes>, bases: seq<G>, n: nat)
    requires IsGroup(g) && n <= |coeffs| && n <= |bases|
    requires forall i :: 0 <= i < n ==> FromLe(coeffs[i]) == 0
    ensures Naive(g, coeffs, bases, n) == g.zero
  {
    if n > 0 {
      NaiveOfZeros(g, coeffs, bases, n - 1);
      MulOne(g, bases[n - 1]);
      GZero(g, g.zero);
    }
  }

  /** A sum splits at any point. */
  lemma {:induction false} NaiveSplit<G(!new)>(g: Group<G>, coeffs: seq<Bytes>, bases: seq<G>, m: nat, n: nat)
    requires IsGroup(g) && m <= n <= |coeffs| && n <= |bases|
    ensures Naive(g, coeffs, bases, n) ==
            g.add(Naive(g, coeffs, bases, m), Naive(g, coeffs[m..n], bases[m..n], n - m))
    decreases n - m, 1
  {
    if m == n {
      GZero(g, Naive(g, coeffs, bases, m));
    } else {
      NaiveSplitStep(g, coeffs, bases, m, n);
    }
  }

  lemma NaiveSplitStep<G(!new)>(g: Group<G>, coeffs: seq<Bytes>, bases: seq<G>, m: nat, n: nat)
    requires IsGroup(g) && m < n <= |coeffs| && n <= |bases|
    ensures Naive(g, coeffs, bases, n) ==
            g.add(Naive(g, coeffs, bases, m), Naive(g, coeffs[m..n], bases[m..n], n - m))
    decreases n - m, 0
  {
    hide Naive, FromLe, Mul, IsGroup;
    NaiveSplit(g, coeffs, bases, m, n - 1);
    var cs, bs := coeffs[m..n], bases[m..n];
    NaivePrefix(g, cs, bs, coeffs[m..n - 1], bases[m..n - 1], n - 1 - m);
    NaiveUnfold(g, coeffs, bases, n);
    NaiveUnfold(g, cs, bs, n - m);
    GAssoc(g, Naive(g, coeffs, bases, m), Naive(g, cs, bs, n - 1 - m), Mul(g, FromLe(coeffs[n - 1]), bases[n - 1]));
  }

  lemma NaiveUnfold<G>(g: Group<G>, coeffs: seq<Bytes>, bases: seq<G>, n: nat)
    requires 0 < n <= |coeffs| && n <= |bases|
    ensures Naive(g, coeffs, bases, n) ==
            g.add(Naive(g, coeffs, bases, n - 1), Mul(g, FromLe(coeffs[n - 1]), bases[n - 1]))
  {
    hide Mul, FromLe;
  }

  lemma {:induction false} NaivePrefix<G>(
      g: Group<G>, coeffs: seq<Bytes>, bases: seq<G>, coeffs': seq<Bytes>, bases': seq<G>, n: nat)
    requires n <= |coeffs| && n <= |bases| && n <= |coeffs'| && n <= |bases'|
    requires forall i :: 0 <= i < n ==> coeffs[i] == coeffs'[i] && bases[i] == bases'[i]
    ensures Naive(g, coeffs, bases, n) == Naive(g, coeffs', bases', n)
  {
    if n > 0 {
      NaivePrefix(g, coeffs, bases, coeffs', bases', n - 1);
    }
  }
}
