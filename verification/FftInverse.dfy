/** The transform with the inverse root undoes the transform, up to the factor n. */
module FftInverse {
  import opened Algebra
  import opened Numbers
  import opened Polynomials
  import opened FftSpec

  /** n * 1 */
  ghost function OfNat<F>(k: Field<F>, n: nat): F {
    if n == 0 then k.zero else k.add(OfNat(k, n - 1), k.one)
  }

  /** 1 + z + ... + z^(n-1) */
  ghost function Geometric<F>(k: Field<F>, z: F, n: nat): F {
    if n == 0 then k.zero else k.add(Geometric(k, z, n - 1), Pow(k, z, n - 1))
  }

  /** (z - 1) * (1 + ... + z^(n-1)) == z^n - 1, in the form z * S + 1 == S + z^n */
  lemma {:induction false} GeometricShift<F(!new)>(k: Field<F>, z: F, n: nat)
    requires IsField(k)
    ensures k.add(k.mul(z, Geometric(k, z, n)), k.one) == k.add(Geometric(k, z, n), Pow(k, z, n))
  {
    if n == 0 {
      FMulZero(k, z);
    } else {
      GeometricShift(k, z, n - 1);
      var s, p := Geometric(k, z, n - 1), Pow(k, z, n - 1);
      FDist(k, z, s, p);
      FComm(k, z, p);
      // (zs + pz) + 1 == (zs + 1) + pz == (s + p) + pz
      FAddAssoc(k, k.mul(z, s), k.mul(p, z), k.one);
      FAddComm(k, k.mul(p, z), k.one);
      FAddAssoc(k, k.mul(z, s), k.one, k.mul(p, z));
    }
  }

  /** The geometric sum vanishes at every root of unity other than one. */
  lemma GeometricZero<F(!new)>(k: Field<F>, z: F, n: nat)
    requires IsField(k) && z != k.one && Pow(k, z, n) == k.one
    ensures Geometric(k, z, n) == k.zero
  {
    GeometricShift(k, z, n);
    var s := Geometric(k, z, n);
    GCancel(k.AddGroup(), k.mul(z, s), s, k.one);
    FOne(k, s);
    if s != k.zero {
      FCancel(k, z, k.one, s);
    }
  }

  lemma {:induction false} GeometricOne<F(!new)>(k: Field<F>, n: nat)
    requires IsField(k)
    ensures Geometric(k, k.one, n) == OfNat(k, n)
  {
    if n > 0 {
      GeometricOne(k, n - 1);
      PowOne(k, n - 1);
    }
  }

  // ---------------------------------------------------------------- transforming twice

  /** sum over j < n of x^j * (sum over k < m of (w^j)^k * s[k]) */
  ghost function Twice<F, G>(v: Space<F, G>, w: F, s: seq<G>, x: F, n: nat, m: nat): G
    requires m <= |s|
  {
    if n == 0 then v.group.zero
    else v.group.add(Twice(v, w, s, x, n - 1, m),
                     v.scale(Pow(v.field, x, n - 1), Terms(v, s, Pow(v.field, w, n - 1), m)))
  }

  lemma {:induction false} TwiceIsEval<F, G>(v: Space<F, G>, w: F, s: seq<G>, d: seq<G>, x: F, n: nat)
    requires n <= |s| == |d| && forall j :: 0 <= j < |d| ==> d[j] == Eval(v, s, Pow(v.field, w, j))
    ensures Twice(v, w, s, x, n, |s|) == Terms(v, d, x, n)
  {
    if n > 0 {
      TwiceIsEval(v, w, s, d, x, n - 1);
      assert d[n - 1] == Terms(v, s, Pow(v.field, w, n - 1), |s|);
    }
  }

  /** x^j * (w^j)^k == (x * w^k)^j */
  lemma MixedPowers<F(!new)>(k: Field<F>, x: F, w: F, j: nat, e: nat)
    requires IsField(k)
    ensures k.mul(Pow(k, x, j), Pow(k, Pow(k, w, j), e)) == Pow(k, k.mul(x, Pow(k, w, e)), j)
  {
    PowMulBase(k, x, Pow(k, w, e), j);
    PowMul(k, w, j, e);
    PowMul(k, w, e, j);
    assert j * e == e * j;
  }

  /** One more coefficient contributes a geometric sum. */
  lemma {:induction false} TwiceStep<F(!new), G(!new)>(v: Space<F, G>, w: F, s: seq<G>, x: F, n: nat, m: nat)
    requires IsSpace(v) && m < |s|
    ensures Twice(v, w, s, x, n, m + 1) ==
            v.group.add(Twice(v, w, s, x, n, m),
                        v.scale(Geometric(v.field, v.field.mul(x, Pow(v.field, w, m)), n), s[m]))
  {
    var g, k := v.group, v.field;
    var z := k.mul(x, Pow(k, w, m));
    if n == 0 {
      SZero(v, k.zero, s[m]);
      GZero(g, g.zero);
    } else {
      var j := n - 1;
      TwiceStep(v, w, s, x, j, m);
      var xj, wj := Pow(k, x, j), Pow(k, w, j);
      SAdd(v, xj, Terms(v, s, wj, m), v.scale(Pow(k, wj, m), s[m]));
      SMul(v, xj, Pow(k, wj, m), s[m]);
      MixedPowers(k, x, w, j, m);
      SAddScalar(v, Geometric(k, z, j), Pow(k, z, j), s[m]);
      GSwap(g, Twice(v, w, s, x, j, m), v.scale(Geometric(k, z, j), s[m]),
            v.scale(xj, Terms(v, s, wj, m)), v.scale(Pow(k, z, j), s[m]));
    }
  }

  /** w^-l * w^m is a root of unity, and is one only for m == l. */
  lemma Orthogonality<F(!new)>(k: Field<F>, w: F, n: nat, l: nat, m: nat)
    requires IsField(k) && HasOrder(k, w, n) && l < n && m < n
    ensures var z := k.mul(Pow(k, k.inv(w), l), Pow(k, w, m));
            Geometric(k, z, n) == if l == m then OfNat(k, n) else k.zero
  {
    RootNonZero(k, w, n);
    var z := k.mul(Pow(k, k.inv(w), l), Pow(k, w, m));
    InversePower(k, w, l);
    if l == m {
      GeometricOne(k, n);
    } else {
      RatioNotOne(k, w, n, l, m);
      RootOfUnity(k, w, n, l, m);
      GeometricZero(k, z, n);
    }
  }

  lemma RootNonZero<F(!new)>(k: Field<F>, w: F, n: nat)
    requires IsField(k) && HasOrder(k, w, n)
    ensures w != k.zero
  {
    FMulZero(k, Pow(k, w, n - 1));
  }

  lemma InversePower<F(!new)>(k: Field<F>, w: F, d: nat)
    requires IsField(k) && w != k.zero
    ensures k.mul(Pow(k, k.inv(w), d), Pow(k, w, d)) == k.one
  {
    PowMulBase(k, k.inv(w), w, d);
    FInv(k, w);
    PowOne(k, d);
  }

  lemma RatioNotOne<F(!new)>(k: Field<F>, w: F, n: nat, l: nat, m: nat)
    requires IsField(k) && HasOrder(k, w, n) && w != k.zero && l < n && m < n && l != m
    ensures k.mul(Pow(k, k.inv(w), l), Pow(k, w, m)) != k.one
  {
    var z := k.mul(Pow(k, k.inv(w), l), Pow(k, w, m));
    if z == k.one {
      // multiply by w^l: w^m == w^l
      InversePower(k, w, l);
      FComm(k, Pow(k, k.inv(w), l), Pow(k, w, l));
      FAssoc(k, Pow(k, w, l), Pow(k, k.inv(w), l), Pow(k, w, m));
      FOne(k, Pow(k, w, l));
      FOne(k, Pow(k, w, m));
      assert Pow(k, w, l) == Pow(k, w, m);
      PowersDistinct(k, w, n, l, m);
    }
  }

  lemma PowersDistinct<F(!new)>(k: Field<F>, w: F, n: nat, l: nat, m: nat)
    requires IsField(k) && HasOrder(k, w, n) && w != k.zero && l < n && m < n && l != m
    ensures Pow(k, w, l) != Pow(k, w, m)
  {
    var (lo, hi) := if l < m then (l, m) else (m, l);
    if Pow(k, w, lo) == Pow(k, w, hi) {
      PowAdd(k, w, hi - lo, lo);
      PowNonZero(k, w, lo);
      FOne(k, Pow(k, w, lo));
      FCancel(k, Pow(k, w, hi - lo), k.one, Pow(k, w, lo));
    }
  }

  lemma RootOfUnity<F(!new)>(k: Field<F>, w: F, n: nat, l: nat, m: nat)
    requires IsField(k) && HasOrder(k, w, n) && w != k.zero
    ensures Pow(k, k.mul(Pow(k, k.inv(w), l), Pow(k, w, m)), n) == k.one
  {
    var a, b := Pow(k, k.inv(w), l), Pow(k, w, m);
    PowMulBase(k, a, b, n);
    PowMul(k, w, m, n);
    PowMul(k, w, n, m);
    PowMul(k, k.inv(w), l, n);
    PowMul(k, k.inv(w), n, l);
    assert m * n == n * m && l * n == n * l;
    PowOne(k, m);
    PowOne(k, l);
    InversePower(k, w, n);
    FOne(k, Pow(k, k.inv(w), n));
    FOne(k, k.one);
  }

  /** A sum that grows by c at step l and by zero at every other step. */
  lemma {:induction false} OneStepSum<G(!new)>(g: Group<G>, sums: seq<G>, c: G, l: nat, m: nat)
    requires IsGroup(g) && m < |sums| && sums[0] == g.zero
    requires forall i :: 0 < i < |sums| ==> sums[i] == g.add(sums[i - 1], if l == i - 1 then c else g.zero)
    ensures sums[m] == if l < m then c else g.zero
  {
    if m > 0 {
      OneStepSum(g, sums, c, l, m - 1);
      GZero(g, sums[m - 1]);
      GZero(g, c);
    }
  }

  /** The partial sums of position l of the double transform. */
  ghost function PartialSums<F, G>(v: Space<F, G>, w: F, s: seq<G>, l: nat): (r: seq<G>)
    ensures |r| == |s| + 1
    ensures forall m :: 0 <= m <= |s| ==> r[m] == Twice(v, w, s, Pow(v.field, v.field.inv(w), l), |s|, m)
  {
    seq(|s| + 1, m requires 0 <= m <= |s| => Twice(v, w, s, Pow(v.field, v.field.inv(w), l), |s|, m))
  }

  lemma PartialSumsStep<F(!new), G(!new)>(v: Space<F, G>, w: F, s: seq<G>, l: nat, i: nat)
    requires IsSpace(v) && HasOrder(v.field, w, |s|) && l < |s| && 0 < i <= |s|
    ensures var sums, c := PartialSums(v, w, s, l), v.scale(OfNat(v.field, |s|), s[l]);
            sums[i] == v.group.add(sums[i - 1], if l == i - 1 then c else v.group.zero)
  {
    TwiceNext(v, w, s, l, i - 1);
  }

  /** Position l of the double transform collects n * s[l] and nothing else. */
  lemma TwiceSelects<F(!new), G(!new)>(v: Space<F, G>, w: F, s: seq<G>, l: nat)
    requires IsSpace(v) && HasOrder(v.field, w, |s|) && l < |s|
    ensures PartialSums(v, w, s, l)[|s|] == v.scale(OfNat(v.field, |s|), s[l])
  {
    var sums, c := PartialSums(v, w, s, l), v.scale(OfNat(v.field, |s|), s[l]);
    assert sums[0] == v.group.zero by {
      TwiceEmpty(v, w, s, Pow(v.field, v.field.inv(w), l), |s|);
    }
    forall i | 0 < i < |sums|
      ensures sums[i] == v.group.add(sums[i - 1], if l == i - 1 then c else v.group.zero)
    {
      PartialSumsStep(v, w, s, l, i);
    }
    OneStepSum(v.group, sums, c, l, |s|);
  }

  /** Coefficient m contributes n * s[m] if it is the selected one, and nothing otherwise. */
  lemma TwiceNext<F(!new), G(!new)>(v: Space<F, G>, w: F, s: seq<G>, l: nat, m: nat)
    requires IsSpace(v) && HasOrder(v.field, w, |s|) && l < |s| && m < |s|
    ensures var x := Pow(v.field, v.field.inv(w), l);
            Twice(v, w, s, x, |s|, m + 1) ==
            v.group.add(Twice(v, w, s, x, |s|, m),
                        if l == m then v.scale(OfNat(v.field, |s|), s[m]) else v.group.zero)
  {
    TwiceStep(v, w, s, Pow(v.field, v.field.inv(w), l), |s|, m);
    Orthogonality(v.field, w, |s|, l, m);
    SZero(v, v.field.zero, s[m]);
  }

  lemma {:induction false} TwiceEmpty<F(!new), G(!new)>(v: Space<F, G>, w: F, s: seq<G>, x: F, n: nat)
    requires IsSpace(v)
    ensures Twice(v, w, s, x, n, 0) == v.group.zero
  {
    if n > 0 {
      TwiceEmpty(v, w, s, x, n - 1);
      SZero(v, Pow(v.field, x, n - 1), v.group.zero);
      GZero(v.group, v.group.zero);
    }
  }

  /** Transforming with w and then with its inverse multiplies every entry by n. */
  lemma InverseDft<F(!new), G(!new)>(v: Space<F, G>, w: F, s: seq<G>, l: nat)
    requires IsSpace(v) && HasOrder(v.field, w, |s|) && l < |s|
    ensures Dft(v, v.field.inv(w), Dft(v, w, s))[l] == v.scale(OfNat(v.field, |s|), s[l])
  {
    TwiceSelects(v, w, s, l);
    TwiceIsEval(v, w, s, Dft(v, w, s), Pow(v.field, v.field.inv(w), l), |s|);
  }

  /** The inverse of a root of order n has order n as well. */
  lemma InverseOrder<F(!new)>(k: Field<F>, w: F, n: nat)
    requires IsField(k) && HasOrder(k, w, n)
    ensures HasOrder(k, k.inv(w), n)
  {
    RootNonZero(k, w, n);
    forall d | 0 < d <= n
      ensures Pow(k, k.inv(w), d) == k.one <==> Pow(k, w, d) == k.one
    {
      InversePower(k, w, d);
      FOne(k, Pow(k, k.inv(w), d));
      FOne(k, Pow(k, w, d));
    }
  }

  /** A field with a root of order 2^m has 2^m invertible. */
  lemma {:induction false} SizeInvertible<F(!new)>(k: Field<F>, w: F, m: nat)
    requires IsField(k) && HasOrder(k, w, Pow2(m))
    ensures OfNat(k, Pow2(m)) != k.zero
  {
    if m == 0 {
      assert OfNat(k, 1) == k.add(k.zero, k.one);
      FAddZero(k, k.one);
    } else {
      HalfTurn(k, w, Pow2(m - 1));
      SizeInvertible(k, k.Sq(w), m - 1);
      var h := OfNat(k, Pow2(m - 1));
      OfNatAdd(k, Pow2(m - 1), Pow2(m - 1));
      // h + h == h * (1 + 1), and 1 + 1 != 0 because -1 != 1
      FDist(k, h, k.one, k.one);
      FOne(k, h);
      FNoZeroDivisors(k, h, k.add(k.one, k.one));
      if k.add(k.one, k.one) == k.zero {
        GNegUnique(k.AddGroup(), k.one, k.one);
      }
    }
  }

  lemma {:induction false} OfNatAdd<F(!new)>(k: Field<F>, a: nat, b: nat)
    requires IsField(k)
    ensures OfNat(k, a + b) == k.add(OfNat(k, a), OfNat(k, b))
  {
    if b == 0 {
      FAddZero(k, OfNat(k, a));
    } else {
      OfNatAdd(k, a, b - 1);
      FAddAssoc(k, OfNat(k, a), OfNat(k, b - 1), k.one);
    }
  }
}
